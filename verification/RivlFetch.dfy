/** Fetching part of a value by its name. */
module RivlFetch {
  import opened Basics
  import opened RivlRows
  import opened RivlLayout
  import opened RivlTypedef
  import opened RivlWalk
  import opened RivlNames
  import opened RivlText
  import opened RivlPath

  // What a fetch sets is compared with what fetching the whole variable sets.

  /** The variables that the walk sets for what a name stands for. */
  ghost function Leaves(reg: Registry, f: Found, name: string, off: nat): seq<Leaf>
    requires Ranked(reg) && Known(reg, f.ty)
  {
    Walk(reg, f.ty, f.isArray && !f.indexed, f.num, name, off)
  }

  // ----- One element, one member -----

  lemma OneElement(reg: Registry, ty: TypeName, num: nat, n: nat, name: string, off: nat, leaf: Leaf)
    requires Ranked(reg) && Known(reg, ty) && n < num
    ensures leaf in WalkOne(reg, ty, Indexed(name, n), ElementOff(reg, ty, off, n)) <==>
            leaf in WalkElements(reg, ty, num, name, off) && Extends(leaf.name, Indexed(name, n))
  {
    hide WalkOne, WalkElements, ElementOff, Indexed;
    ElementOf(reg, ty, num, name, off, leaf);
    WalkOneExtends(reg, ty, Indexed(name, n), ElementOff(reg, ty, off, n));
    if leaf in WalkElements(reg, ty, num, name, off) && Extends(leaf.name, Indexed(name, n)) {
      var j :| 0 <= j < num && leaf in WalkOne(reg, ty, Indexed(name, j), ElementOff(reg, ty, off, j));
      WalkOneExtends(reg, ty, Indexed(name, j), ElementOff(reg, ty, off, j));
      DifferentIndices(leaf.name, name, j, n);
    }
  }

  lemma OneMember(reg: Registry, i: nat, j: nat, name: string, off: nat, leaf: Leaf)
    requires Nameable(reg) && i < |reg| && j < |reg[i].members|
    ensures InMember(reg, i, j, name, off, leaf) <==>
            leaf in WalkMembers(reg, i, |reg[i].members|, name, off)
            && Extends(leaf.name, Dotted(name, reg[i].members[j].name))
  {
    hide Walk, WalkMembers, Dotted, Extends, Clean;
    var ms := reg[i].members;
    MemberOf(reg, i, |ms|, name, off, leaf);
    MemberExtends(reg, i, j, name, off, leaf);
    if leaf in WalkMembers(reg, i, |ms|, name, off) && Extends(leaf.name, Dotted(name, ms[j].name)) {
      var k :| 0 <= k < |ms| && InMember(reg, i, k, name, off, leaf);
      MemberExtends(reg, i, k, name, off, leaf);
      DifferentMembers(leaf.name, name, ms[j].name, ms[k].name);
      assert DistinctNames(ms);
    }
  }

  lemma MemberExtends(reg: Registry, i: nat, j: nat, name: string, off: nat, leaf: Leaf)
    requires Ranked(reg) && i < |reg| && j < |reg[i].members|
    ensures InMember(reg, i, j, name, off, leaf) ==> Extends(leaf.name, Dotted(name, reg[i].members[j].name))
  {
    var m := reg[i].members[j];
    WalkExtends(reg, m.ty, m.isArray, m.arrayNum, Dotted(name, m.name), off + m.offset);
  }

  // ----- A path of members and subscripts -----

  function MemberAt(reg: Registry, f: Found, p: Part): Member
    requires Known(reg, f.ty) && ToMember(reg, f, p).Some?
  {
    DefOf(reg, f.ty).members[MemberIndex(DefOf(reg, f.ty).members, p.name).value]
  }

  /** How far behind its start the path leads; None when the name does not resolve or one
      of its subscripts is not below the length of its array. */
  ghost function Depth(reg: Registry, f: Found, path: seq<Part>): (d: Option<nat>)
    requires Ranked(reg) && Known(reg, f.ty)
    ensures d.Some? ==> Resolved(reg, f, path).Some?
    decreases |path|
  {
    if path == [] then Some(0)
    else match ToMember(reg, f, path[0])
      case None => None
      case Some(next) =>
        var m := MemberAt(reg, f, path[0]);
        if path[0].index.Some? && path[0].index.value >= m.arrayNum then None
        else match Depth(reg, next, path[1..])
          case None => None
          case Some(d) => Some(Inside(reg, m, path[0].index) + d)
  }

  /** Naming a member sets what the walk over the whole sets below that member. */
  lemma OnePart(reg: Registry, f: Found, p: Part, base: string, off: nat, leaf: Leaf)
    requires Nameable(reg) && Known(reg, f.ty) && ToMember(reg, f, p).Some?
    requires p.index.Some? ==> p.index.value < MemberAt(reg, f, p).arrayNum
    ensures var name := Dotted(base, PartName(p));
            leaf in Leaves(reg, ToMember(reg, f, p).value, name, off + Inside(reg, MemberAt(reg, f, p), p.index)) <==>
            leaf in Leaves(reg, f, base, off) && Extends(leaf.name, name)
  {
    hide WalkOne, WalkMembers, WalkElements, Dotted, Extends, ElementOff, Inside, Indexed, PartName;
    var i := Find(reg, f.ty.name).value;
    var j := MemberIndex(reg[i].members, p.name).value;
    var m := reg[i].members[j];
    var below := Dotted(base, m.name);
    WalkOfMembers(reg, f, i, base, off);
    OneMember(reg, i, j, base, off, leaf);
    ElementPlace(reg, m, p.index, base, off);
    assert p == Part(m.name, p.index);
    if p.index.Some? {
      OneElement(reg, m.ty, m.arrayNum, p.index.value, below, off + m.offset, leaf);
      if Extends(leaf.name, Indexed(below, p.index.value)) {
        ExtendsIndexed(leaf.name, below, p.index.value);
      }
    }
  }

  lemma WalkOfMembers(reg: Registry, f: Found, i: nat, base: string, off: nat)
    requires Ranked(reg) && f.ty.Named? && !(f.isArray && !f.indexed) && Find(reg, f.ty.name) == Some(i)
    ensures Leaves(reg, f, base, off) == WalkMembers(reg, i, |reg[i].members|, base, off)
  {
    assert Walk(reg, f.ty, false, f.num, base, off) == WalkOne(reg, f.ty, base, off);
  }

  lemma {:induction false} PathExtends(s: string, base: string, path: seq<Part>)
    requires Extends(s, PathName(base, path))
    ensures Extends(s, base)
    decreases |path|
  {
    if path != [] {
      PathExtends(s, Dotted(base, PartName(path[0])), path[1..]);
      ExtendsDotted(s, base, PartName(path[0]));
    }
  }

  /** Fetching what a path leads to sets exactly the variables that fetching the whole
      would set below that name, each from the same place. */
  lemma {:induction false} Fetched(reg: Registry, f: Found, path: seq<Part>, base: string, off: nat, leaf: Leaf)
    requires Nameable(reg) && Known(reg, f.ty) && Depth(reg, f, path).Some?
    ensures var found, name := Resolved(reg, f, path).value, PathName(base, path);
            leaf in Leaves(reg, found, name, off + Depth(reg, f, path).value) <==>
            leaf in Leaves(reg, f, base, off) && Extends(leaf.name, name)
    decreases |path|
  {
    hide Leaves, Dotted, Extends, Inside, PartName;
    if path == [] {
      LeavesExtend(reg, f, base, off, leaf);
    } else {
      var p := path[0];
      var name, at := Dotted(base, PartName(p)), off + Inside(reg, MemberAt(reg, f, p), p.index);
      OnePart(reg, f, p, base, off, leaf);
      Fetched(reg, ToMember(reg, f, p).value, path[1..], name, at, leaf);
      if Extends(leaf.name, PathName(name, path[1..])) {
        PathExtends(leaf.name, name, path[1..]);
      }
    }
  }

  lemma LeavesExtend(reg: Registry, f: Found, base: string, off: nat, leaf: Leaf)
    requires Ranked(reg) && Known(reg, f.ty)
    ensures leaf in Leaves(reg, f, base, off) ==> Extends(leaf.name, base)
  {
    WalkExtends(reg, f.ty, f.isArray && !f.indexed, f.num, base, off);
  }

  // ----- Names as text -----

  /** A name that reads back as itself, with every subscript below num where it is an array. */
  predicate Spelled(name: string, isArray: bool, num: nat) {
    Readable(Part(name, None)) && (isArray ==> name != "" && num <= WORD)
  }

  ghost predicate SpelledMembers(reg: Registry) {
    forall i, k :: 0 <= i < |reg| && 0 <= k < |reg[i].members| ==>
      var m := reg[i].members[k]; Spelled(m.name, m.isArray, m.arrayNum)
  }

  ghost predicate AllReadable(path: seq<Part>) { forall p <- path :: Readable(p) }

  lemma {:induction false} PathIsRead(base: string, path: seq<Part>)
    requires AllReadable(path)
    ensures ReadName(PathName(base, path)) == ReadName(base) + path
    decreases |path|
  {
    hide ReadName, PartName, Dotted, Readable;
    if path != [] {
      var p, rest := path[0], path[1..];
      NameIsRead(base, p);
      assert AllReadable(rest);
      PathIsRead(Dotted(base, PartName(p)), rest);
      assert path == [p] + rest;
    }
  }

  lemma NameOfPath(p: Part, path: seq<Part>)
    requires Readable(p) && AllReadable(path)
    ensures ReadName(PathName(PartName(p), path)) == [p] + path
  {
    PartAlone(p);
    PathIsRead(PartName(p), path);
  }

  lemma {:induction false} DepthIsReadable(reg: Registry, f: Found, path: seq<Part>)
    requires Ranked(reg) && SpelledMembers(reg) && Known(reg, f.ty) && Depth(reg, f, path).Some?
    ensures AllReadable(path)
    decreases |path|
  {
    if path != [] {
      DepthIsReadable(reg, ToMember(reg, f, path[0]).value, path[1..]);
      var m := MemberAt(reg, f, path[0]);
      assert Spelled(m.name, m.isArray, m.arrayNum);
    }
  }

  lemma {:induction false} LocatedIsReadable(reg: Registry, ty: TypeName, path: seq<Part>)
    requires Ranked(reg) && SpelledMembers(reg) && Known(reg, ty) && Locate(reg, ty, path).Some?
    ensures AllReadable(path)
    decreases |path|
  {
    if path != [] {
      var m := DefOf(reg, ty).members[MemberIndex(DefOf(reg, ty).members, path[0].name).value];
      LocatedIsReadable(reg, m.ty, path[1..]);
      assert Spelled(m.name, m.isArray, m.arrayNum);
    }
  }

  ghost predicate Declared(reg: Registry, vars: map<string, Variable>, v: Variable) {
    && Nameable(reg) && SpelledMembers(reg) && (forall x <- vars :: Known(reg, vars[x].ty))
    && v.name in vars && vars[v.name] == v && Spelled(v.name, v.isArray, v.arrayNum)
  }

  /** What a variable, or an element of it, has as its variables. */
  ghost function Whole(reg: Registry, v: Variable): seq<Leaf>
    requires Ranked(reg) && Known(reg, v.ty)
  {
    Walk(reg, v.ty, v.isArray, v.arrayNum, v.name, 0)
  }

  /** Fetching any part of a variable by the text of its name, a whole array included, sets
      exactly the variables that fetching the whole variable sets with names below that text,
      each from the same place. */
  lemma FetchByText(
    reg: Registry, vars: map<string, Variable>, v: Variable, index: Option<nat>, path: seq<Part>, leaf: Leaf)
    requires Declared(reg, vars, v) && (index.Some? ==> v.isArray && index.value < v.arrayNum)
    requires Depth(reg, Chosen(v.ty, v.isArray, v.arrayNum, index), path).Some?
    ensures var name := PathName(PartName(Part(v.name, index)), path);
            var found := Meant(reg, vars, ReadName(name));
            var start := if index.Some? then ElementOff(reg, v.ty, 0, index.value) else 0;
            var depth := Depth(reg, Chosen(v.ty, v.isArray, v.arrayNum, index), path).value;
            && ReadName(name) == [Part(v.name, index)] + path && found.Some?
            && (leaf in Leaves(reg, found.value, name, start + depth) <==>
                leaf in Whole(reg, v) && Extends(leaf.name, name))
  {
    hide Walk, Leaves, Whole, Dotted, Extends, ElementOff, Indexed, ReadName, SpelledMembers, PartName, PathName;
    var p, f := Part(v.name, index), Chosen(v.ty, v.isArray, v.arrayNum, index);
    var base := PartName(p);
    var start := if index.Some? then ElementOff(reg, v.ty, 0, index.value) else 0;
    DepthIsReadable(reg, f, path);
    NameOfPath(p, path);
    assert ([p] + path)[1..] == path;
    Fetched(reg, f, path, base, start, leaf);
    FirstElement(reg, v, index, leaf);
    if Extends(leaf.name, PathName(base, path)) {
      PathExtends(leaf.name, base, path);
    }
  }

  lemma FirstElement(reg: Registry, v: Variable, index: Option<nat>, leaf: Leaf)
    requires Ranked(reg) && Known(reg, v.ty) && (index.Some? ==> v.isArray && index.value < v.arrayNum)
    ensures var start := if index.Some? then ElementOff(reg, v.ty, 0, index.value) else 0;
            var base := PartName(Part(v.name, index));
            leaf in Leaves(reg, Chosen(v.ty, v.isArray, v.arrayNum, index), base, start) <==>
            leaf in Whole(reg, v) && Extends(leaf.name, base)
  {
    hide WalkOne, WalkElements, ElementOff, Indexed, Extends;
    if index.Some? {
      OneElement(reg, v.ty, v.arrayNum, index.value, v.name, 0, leaf);
    } else {
      WalkExtends(reg, v.ty, v.isArray, v.arrayNum, v.name, 0);
    }
  }

  /** Every variable that the walk over a value sets can be fetched by the text of its own
      name, and then is the only one that is set, exactly when no subscript behind the first
      part of that text is 0. */
  lemma LeafByText(reg: Registry, vars: map<string, Variable>, v: Variable, leaf: Leaf)
    requires Declared(reg, vars, v) && leaf in Whole(reg, v)
    ensures var found := Meant(reg, vars, ReadName(leaf.name));
            && (found.Some? <==> NoZero(ReadName(leaf.name)[1..]))
            && (found.Some? ==> Leaves(reg, found.value, leaf.name, leaf.off) == [leaf])
  {
    hide WalkOne, Dotted, Extends, ElementOff, Indexed, ReadName, SpelledMembers;
    var index, start := None, 0;
    if v.isArray {
      ElementOf(reg, v.ty, v.arrayNum, v.name, 0, leaf);
      var n :| 0 <= n < v.arrayNum && leaf in WalkOne(reg, v.ty, Indexed(v.name, n), ElementOff(reg, v.ty, 0, n));
      index, start := Some(n), ElementOff(reg, v.ty, 0, n);
    }
    var p := Part(v.name, index);
    var path := WalkedLeafResolves(reg, v, index, start, leaf);
    LocatedIsReadable(reg, v.ty, path);
    NameOfPath(p, path);
    assert ([p] + path)[1..] == path;
    SingleLeaf(reg, leaf);
  }

  lemma SingleLeaf(reg: Registry, leaf: Leaf)
    requires Ranked(reg)
    ensures WalkOne(reg, Basic(leaf.kind), leaf.name, leaf.off) == [leaf]
  {
  }

  // ----- What it looks like -----

  lemma TwelveAndZero()
    ensures Decimal(12) == "12" && Decimal(0) == "0"
    ensures Readable(Part("b", Some(12))) && Readable(Part("v", None)) && Readable(Part("w", Some(0)))
  {
    assert Decimal(1) == "1";
  }

  lemma PrintedNames()
    ensures PartName(Part("v", None)) == "v" && PartName(Part("w", Some(0))) == "w(0)"
    ensures Dotted("v", PartName(Part("b", Some(12)))) == PathName("v", [Part("b", Some(12))]) == "v.b(12)"
  {
    hide Decimal;
    TwelveAndZero();
    assert [Part("b", Some(12))][1..] == [] && PathName("v.b(12)", []) == "v.b(12)";
  }

  /** Element 12 of member b of a variable v, and element 0 of a variable w. */
  lemma NamesAsText()
    ensures PathName("v", [Part("b", Some(12))]) == "v.b(12)"
    ensures ReadName("v.b(12)") == [Part("v", None), Part("b", Some(12))]
    ensures PartName(Part("w", Some(0))) == "w(0)" && ReadName("w(0)") == [Part("w", Some(0))]
  {
    hide ReadName, Readable, PartName, PathName, Dotted, Decimal;
    TwelveAndZero();
    PrintedNames();
    PartAlone(Part("v", None));
    PartAlone(Part("w", Some(0)));
    NameIsRead("v", Part("b", Some(12)));
    assert [Part("v", None)] + [Part("b", Some(12))] == [Part("v", None), Part("b", Some(12))];
  }
}
