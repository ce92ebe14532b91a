/** Fetching a single leaf of a value by its name. */
module RivlPath {
  import opened Basics
  import opened RivlRows
  import opened RivlLayout
  import opened RivlTypedef
  import opened RivlWalk
  import opened RivlNames
  import opened RivlText

  // Which of the variables that the walk sets can be named in a `GetVar` of their own. A
  // name is taken as its parts between the dots.

  /** The name that a path has below a variable. */
  function PathName(base: string, path: seq<Part>): string
    decreases |path|
  {
    if path == [] then base else PathName(Dotted(base, PartName(path[0])), path[1..])
  }

  // ----- Where a path leads -----

  datatype Place = Place(off: nat, kind: Kind)

  function MemberIndex(ms: seq<Member>, name: string): (k: Option<nat>)
    ensures k.Some? ==> k.value < |ms| && ms[k.value].name == name
    ensures k.None? ==> forall i :: 0 <= i < |ms| ==> ms[i].name != name
  {
    if ms == [] then None
    else if ms[0].name == name then Some(0)
    else match MemberIndex(ms[1..], name)
      case None => None
      case Some(k) => Some(k + 1)
  }

  /** An array member needs a subscript below its length, any other member none. */
  predicate Fits(m: Member, index: Option<nat>) {
    if m.isArray then index.Some? && index.value < m.arrayNum else index.None?
  }

  function Inside(reg: Registry, m: Member, index: Option<nat>): nat
    requires Known(reg, m.ty)
  {
    if index.Some? then ElementOff(reg, m.ty, m.offset, index.value) else m.offset
  }

  /** The leaf of a type that a path leads to. */
  ghost function Locate(reg: Registry, ty: TypeName, path: seq<Part>): Option<Place>
    requires Ranked(reg) && Known(reg, ty)
    decreases |path|
  {
    match ty
    case Basic(kind) => if path == [] then Some(Place(0, kind)) else None
    case Named(_) =>
      if path == [] then None
      else match MemberIndex(DefOf(reg, ty).members, path[0].name)
        case None => None
        case Some(k) =>
          var m := DefOf(reg, ty).members[k];
          if !Fits(m, path[0].index) then None
          else match Locate(reg, m.ty, path[1..])
            case None => None
            case Some(p) => Some(Place(Inside(reg, m, path[0].index) + p.off, p.kind))
  }

  ghost predicate Leads(reg: Registry, ty: TypeName, name: string, off: nat, path: seq<Part>, leaf: Leaf)
    requires Ranked(reg) && Known(reg, ty)
  {
    && Locate(reg, ty, path).Some?
    && leaf == Leaf(PathName(name, path), off + Locate(reg, ty, path).value.off, Locate(reg, ty, path).value.kind)
  }

  // ----- The walk sets the leaves that paths lead to -----

  lemma {:induction false} ElementOf(reg: Registry, ty: TypeName, n: nat, name: string, off: nat, leaf: Leaf)
    requires Ranked(reg) && Known(reg, ty)
    ensures leaf in WalkElements(reg, ty, n, name, off) <==>
            exists j {:trigger ElementOff(reg, ty, off, j)} ::
              0 <= j < n && leaf in WalkOne(reg, ty, Indexed(name, j), ElementOff(reg, ty, off, j))
    decreases n
  {
    hide ElementOff, WalkOne;
    if n > 0 {
      ElementOf(reg, ty, n - 1, name, off, leaf);
    }
  }

  ghost predicate InMember(reg: Registry, i: nat, j: nat, name: string, off: nat, leaf: Leaf)
    requires Ranked(reg) && i < |reg| && j < |reg[i].members|
  {
    var m := reg[i].members[j];
    leaf in Walk(reg, m.ty, m.isArray, m.arrayNum, Dotted(name, m.name), off + m.offset)
  }

  lemma {:induction false} MemberOf(reg: Registry, i: nat, k: nat, name: string, off: nat, leaf: Leaf)
    requires Ranked(reg) && i < |reg| && k <= |reg[i].members|
    ensures leaf in WalkMembers(reg, i, k, name, off) <==>
            exists j :: 0 <= j < k && InMember(reg, i, j, name, off, leaf)
    decreases k
  {
    hide Walk;
    if k > 0 {
      MemberOf(reg, i, k - 1, name, off, leaf);
      assert leaf in WalkMembers(reg, i, k, name, off) <==>
             leaf in WalkMembers(reg, i, k - 1, name, off) || InMember(reg, i, k - 1, name, off, leaf);
    }
  }

  /** The leaves of one member, whether it is an array or not. */
  lemma InMemberByIndex(reg: Registry, i: nat, j: nat, name: string, off: nat, leaf: Leaf)
    requires Ranked(reg) && i < |reg| && j < |reg[i].members|
    ensures var m := reg[i].members[j];
            InMember(reg, i, j, name, off, leaf) <==>
              exists index :: Fits(m, index) && InElement(reg, m, index, name, off, leaf)
  {
    hide WalkOne, WalkElements, ElementOff, Inside, Dotted, PartName, Indexed;
    var m := reg[i].members[j];
    var below := Dotted(name, m.name);
    if m.isArray {
      ElementOf(reg, m.ty, m.arrayNum, below, off + m.offset, leaf);
      assert InMember(reg, i, j, name, off, leaf) <==>
             leaf in WalkElements(reg, m.ty, m.arrayNum, below, off + m.offset);
      if InMember(reg, i, j, name, off, leaf) {
        var n :| 0 <= n < m.arrayNum &&
                 leaf in WalkOne(reg, m.ty, Indexed(below, n), ElementOff(reg, m.ty, off + m.offset, n));
        ElementPlace(reg, m, Some(n), name, off);
        assert InElement(reg, m, Some(n), name, off, leaf);
      }
      forall index | Fits(m, index) && InElement(reg, m, index, name, off, leaf)
        ensures InMember(reg, i, j, name, off, leaf)
      {
        ElementPlace(reg, m, index, name, off);
      }
    } else {
      ElementPlace(reg, m, None, name, off);
      assert InElement(reg, m, None, name, off, leaf) <==> InMember(reg, i, j, name, off, leaf);
    }
  }

  ghost predicate InElement(reg: Registry, m: Member, index: Option<nat>, name: string, off: nat, leaf: Leaf)
    requires Ranked(reg) && Known(reg, m.ty)
  {
    leaf in WalkOne(reg, m.ty, Dotted(name, PartName(Part(m.name, index))), off + Inside(reg, m, index))
  }

  lemma ElementPlace(reg: Registry, m: Member, index: Option<nat>, name: string, off: nat)
    requires Known(reg, m.ty)
    ensures index.Some? ==>
              && Dotted(name, PartName(Part(m.name, index))) == Indexed(Dotted(name, m.name), index.value)
              && off + Inside(reg, m, index) == ElementOff(reg, m.ty, off + m.offset, index.value)
    ensures index.None? ==>
              Dotted(name, PartName(Part(m.name, index))) == Dotted(name, m.name) && Inside(reg, m, index) == m.offset
  {
  }

  lemma {:induction false} FoundByName(ms: seq<Member>, j: nat)
    requires DistinctNames(ms) && j < |ms|
    ensures MemberIndex(ms, ms[j].name) == Some(j)
  {
  }

  lemma OneMorePart(reg: Registry, ty: TypeName, name: string, off: nat, part: Part, rest: seq<Part>, leaf: Leaf)
    requires Ranked(reg) && Known(reg, ty) && ty.Named?
    requires var ms := DefOf(reg, ty).members;
             var k := MemberIndex(ms, part.name);
             && k.Some? && Fits(ms[k.value], part.index)
             && Leads(reg, ms[k.value].ty, Dotted(name, PartName(part)),
                      off + Inside(reg, ms[k.value], part.index), rest, leaf)
    ensures Leads(reg, ty, name, off, [part] + rest, leaf)
  {
    hide Dotted, PartName, Inside, Fits, MemberIndex;
    assert ([part] + rest)[1..] == rest;
  }

  /** The member and the subscript below which a leaf lies. */
  lemma FirstPart(reg: Registry, i: nat, name: string, off: nat, leaf: Leaf) returns (j: nat, part: Part)
    requires Ranked(reg) && DistinctMembers(reg) && i < |reg|
    requires leaf in WalkMembers(reg, i, |reg[i].members|, name, off)
    ensures MemberIndex(reg[i].members, part.name) == Some(j) && j < |reg[i].members|
    ensures Known(reg, reg[i].members[j].ty) && Fits(reg[i].members[j], part.index)
    ensures Rank(reg, reg[i].members[j].ty) <= i
    ensures leaf in WalkOne(reg, reg[i].members[j].ty, Dotted(name, PartName(part)),
                            off + Inside(reg, reg[i].members[j], part.index))
  {
    hide ElementOff, WalkMembers, WalkOne, Dotted, PartName, Inside, Fits, MemberIndex, InMember, DistinctNames;
    MemberOf(reg, i, |reg[i].members|, name, off, leaf);
    j :| 0 <= j < |reg[i].members| && InMember(reg, i, j, name, off, leaf);
    InMemberByIndex(reg, i, j, name, off, leaf);
    var m := reg[i].members[j];
    var index :| Fits(m, index) && InElement(reg, m, index, name, off, leaf);
    FoundByName(reg[i].members, j);
    part := Part(m.name, index);
  }

  /** A leaf is the variable itself or lies below a member. */
  lemma LeafIsBelow(reg: Registry, ty: TypeName, name: string, off: nat, leaf: Leaf)
    requires Ranked(reg) && Known(reg, ty) && leaf in WalkOne(reg, ty, name, off)
    ensures ty.Basic? ==> Leads(reg, ty, name, off, [], leaf)
    ensures ty.Named? ==>
              var i := Find(reg, ty.name).value; leaf in WalkMembers(reg, i, |reg[i].members|, name, off)
  {
    hide WalkMembers;
  }

  lemma {:induction false} LeafHasPath(
      reg: Registry, ty: TypeName, name: string, off: nat, leaf: Leaf) returns (path: seq<Part>)
    requires Ranked(reg) && DistinctMembers(reg) && Known(reg, ty) && leaf in WalkOne(reg, ty, name, off)
    ensures Leads(reg, ty, name, off, path, leaf)
    decreases Rank(reg, ty)
  {
    hide DistinctMembers, Ranked, ElementOff, WalkOne, WalkMembers, Dotted, PartName, Inside, Fits, MemberIndex, Leads;
    LeafIsBelow(reg, ty, name, off, leaf);
    path := [];
    if ty.Named? {
      var i := Find(reg, ty.name).value;
      var j, part := FirstPart(reg, i, name, off, leaf);
      var m := reg[i].members[j];
      var rest := LeafHasPath(reg, m.ty, Dotted(name, PartName(part)), off + Inside(reg, m, part.index), leaf);
      OneMorePart(reg, ty, name, off, part, rest, leaf);
      path := [part] + rest;
    }
  }

  lemma {:induction false} PathHasLeaf(reg: Registry, ty: TypeName, name: string, off: nat, path: seq<Part>, leaf: Leaf)
    requires Ranked(reg) && Known(reg, ty) && Leads(reg, ty, name, off, path, leaf)
    ensures leaf in WalkOne(reg, ty, name, off)
    decreases |path|
  {
    if ty.Named? {
      hide ElementOff, WalkMembers;
      var i := Find(reg, ty.name).value;
      var j := MemberIndex(reg[i].members, path[0].name).value;
      var m := reg[i].members[j];
      PathHasLeaf(reg, m.ty, Dotted(name, PartName(path[0])), off + Inside(reg, m, path[0].index), path[1..], leaf);
      assert Part(m.name, path[0].index) == path[0];
      assert InElement(reg, m, path[0].index, name, off, leaf);
      InMemberByIndex(reg, i, j, name, off, leaf);
      MemberOf(reg, i, |reg[i].members|, name, off, leaf);
    }
  }

  // ----- How the command resolves a name -----

  datatype Variable = Variable(name: string, ty: TypeName, isArray: bool, arrayNum: nat)

  /** What a name stands for so far: its type, whether that is an array, whether a
      subscript chose one element, and how many elements are meant. */
  datatype Found = Found(ty: TypeName, isArray: bool, indexed: bool, num: nat)

  /** A basic type, or an array without a subscript, has nothing behind a dot. */
  predicate Stops(f: Found) { f.ty.Basic? || (f.isArray && !f.indexed) }

  function Chosen(ty: TypeName, isArray: bool, arrayNum: nat, index: Option<nat>): Found {
    Found(ty, isArray, index.Some?, if index.Some? then 1 else if isArray then arrayNum else 1)
  }

  function ToVariable(vars: map<string, Variable>, p: Part): Option<Found> {
    if p == MALFORMED || p.name !in vars || (p.index.Some? && !vars[p.name].isArray) then None
    else Some(Chosen(vars[p.name].ty, vars[p.name].isArray, vars[p.name].arrayNum, p.index))
  }

  /** The subscript 0 reads as a format error. */
  function ToMember(reg: Registry, f: Found, p: Part): Option<Found>
    requires Known(reg, f.ty)
  {
    if Stops(f) || p.index == Some(0) then None
    else match MemberIndex(DefOf(reg, f.ty).members, p.name)
      case None => None
      case Some(k) =>
        var m := DefOf(reg, f.ty).members[k];
        if p.index.Some? && !m.isArray then None else Some(Chosen(m.ty, m.isArray, m.arrayNum, p.index))
  }

  ghost function Resolved(reg: Registry, f: Found, path: seq<Part>): (r: Option<Found>)
    requires Ranked(reg) && Known(reg, f.ty)
    ensures r.Some? ==> Known(reg, r.value.ty)
    decreases |path|
  {
    if path == [] then Some(f)
    else match ToMember(reg, f, path[0])
      case None => None
      case Some(next) => Resolved(reg, next, path[1..])
  }

  /** The name has a dot behind a variable of a basic type. */
  ghost predicate BehindBasic(vars: map<string, Variable>, path: seq<Part>)
    requires path != []
  {
    var f := ToVariable(vars, path[0]);
    |path| > 1 && f.Some? && f.value.ty.Basic? && (f.value.isArray ==> f.value.indexed)
  }

  ghost function Meant(reg: Registry, vars: map<string, Variable>, path: seq<Part>): Option<Found>
    requires Ranked(reg) && path != [] && forall v <- vars :: Known(reg, vars[v].ty)
  {
    match ToVariable(vars, path[0])
    case None => None
    case Some(f) => Resolved(reg, f, path[1..])
  }

  lemma ResolvedStep(reg: Registry, f: Found, p: Part, rest: seq<Part>)
    requires Ranked(reg) && Known(reg, f.ty)
    ensures Resolved(reg, f, [p] + rest) ==
            match ToMember(reg, f, p)
            case None => None
            case Some(next) => Resolved(reg, next, rest)
  {
    assert ([p] + rest)[1..] == rest;
  }

  lemma NothingLeft(reg: Registry, f: Found)
    requires Ranked(reg) && Known(reg, f.ty)
    ensures ReadRest("") == [] && Resolved(reg, f, []) == Some(f)
  {
  }

  /** The scan for the end of a part. */
  method NextDot(name: string, from: nat) returns (at: nat)
    requires from <= |name|
    ensures at == from + First('.', name[from..])
  {
    at := from;
    while at < |name| && name[at] != '.'
      invariant from <= at <= from + First('.', name[from..])
    {
      assert name[at] == name[from..][at - from];
      at := at + 1;
    }
  }

  /** `RivlTypeFindByVariableName`. `wild` says that a member is looked up in a type that
      is not there: the code follows a null pointer. */
  method FindByVariableName(reg: Registry, vars: map<string, Variable>, name: string)
    returns (r: Option<Found>, wild: bool)
    requires Ranked(reg) && forall v <- vars :: Known(reg, vars[v].ty)
    ensures wild <==> BehindBasic(vars, ReadName(name)) && ReadName(name)[1].index != Some(0)
    ensures r == Meant(reg, vars, ReadName(name))
  {
    hide First, ReadPart, ReadRest, Resolved;
    wild := false;
    var pos := NextDot(name, 0);
    assert name[0..] == name;
    ghost var path := ReadName(name);
    assert path[0] == ReadPart(name[..pos]) && path[1..] == ReadRest(name[pos..]);
    var isArray, num, part := IsDefineArray(name[..pos]);
    if !isArray && num == 0 {
      return None, false;
    }
    if part !in vars {
      return None, false;
    }
    var v := vars[part];
    if isArray && !v.isArray {
      return None, false;
    }
    var f := Found(v.ty, v.isArray, isArray, if isArray then 1 else if v.isArray then v.arrayNum else 1);
    NothingLeft(reg, f);
    if pos < |name| && !isArray && v.isArray {
      NextPart(name, pos, pos + 1 + First('.', name[pos + 1..]));
      var next := pos + 1 + First('.', name[pos + 1..]);
      ResolvedStep(reg, f, ReadPart(name[pos + 1..next]), ReadRest(name[next..]));
      return None, false;
    }
    var shouldStop := false;
    ghost var first := true;
    while pos < |name|
      invariant pos <= |name| && Known(reg, f.ty) && (pos < |name| ==> name[pos] == '.')
      invariant shouldStop == if first then false else Stops(f)
      invariant first ==> Some(f) == ToVariable(vars, path[0]) && path[1..] == ReadRest(name[pos..])
      invariant first && pos < |name| && f.isArray ==> f.indexed
      invariant !first ==> !BehindBasic(vars, path)
      invariant Meant(reg, vars, path) == Resolved(reg, f, ReadRest(name[pos..]))
    {
      var from := pos + 1;
      ghost var at := pos;
      pos := NextDot(name, from);
      NextPart(name, at, pos);
      ResolvedStep(reg, f, ReadPart(name[from..pos]), ReadRest(name[pos..]));
      if shouldStop {
        return None, false;
      }
      isArray, num, part := IsDefineArray(name[from..pos]);
      if num == 0 {
        return None, false;
      }
      if f.ty.Basic? {
        return None, true;
      }
      var k := MemberIndex(DefOf(reg, f.ty).members, part);
      if k.None? {
        return None, false;
      }
      var m := DefOf(reg, f.ty).members[k.value];
      if isArray && !m.isArray {
        return None, false;
      }
      f := Found(m.ty, m.isArray, isArray, if isArray then 1 else if m.isArray then m.arrayNum else 1);
      shouldStop := m.ty.Basic? || (!isArray && m.isArray);
      first := false;
    }
    NothingLeft(reg, f);
    assert name[pos..] == "";
    r := Some(f);
  }

  ghost predicate NoZero(path: seq<Part>) { forall p <- path :: p.index != Some(0) }

  /** Below a chosen element, the path of a leaf resolves exactly when none of its
      subscripts is 0, and then it resolves to that one leaf. */
  lemma {:induction false} LeafPathResolves(reg: Registry, f: Found, path: seq<Part>)
    requires Ranked(reg) && Known(reg, f.ty) && (f.isArray ==> f.indexed) && Locate(reg, f.ty, path).Some?
    ensures Resolved(reg, f, path).Some? <==> NoZero(path)
    ensures NoZero(path) ==>
              var g := Resolved(reg, f, path).value;
              && g.ty == Basic(Locate(reg, f.ty, path).value.kind) && (g.isArray ==> g.indexed)
              && (f.num == 1 ==> g.num == 1)
    decreases |path|
  {
    if path != [] {
      assert path == [path[0]] + path[1..];
      if path[0].index != Some(0) {
        LeafPathResolves(reg, ToMember(reg, f, path[0]).value, path[1..]);
      }
    }
  }

  /** Every variable that the walk over a value sets has a name that resolves to the
      same basic type, exactly when no member subscript on the way is 0: element 0 of
      an array member is set by the walk and cannot be fetched by its own name. */
  lemma WalkedLeafResolves(
      reg: Registry, v: Variable, index: Option<nat>, off: nat, leaf: Leaf) returns (path: seq<Part>)
    requires Ranked(reg) && DistinctMembers(reg) && Known(reg, v.ty) && v.isArray == index.Some?
    requires leaf in WalkOne(reg, v.ty, PartName(Part(v.name, index)), off)
    ensures leaf.name == PathName(PartName(Part(v.name, index)), path) && Locate(reg, v.ty, path).Some?
    ensures var f := Chosen(v.ty, v.isArray, v.arrayNum, index);
            && (Resolved(reg, f, path).Some? <==> NoZero(path))
            && (NoZero(path) ==>
                  var g := Resolved(reg, f, path).value;
                  g.ty == Basic(leaf.kind) && g.num == 1 && (g.isArray ==> g.indexed))
  {
    path := LeafHasPath(reg, v.ty, PartName(Part(v.name, index)), off, leaf);
    LeafPathResolves(reg, Chosen(v.ty, v.isArray, v.arrayNum, index), path);
  }

  /** The subscripts are never compared with the length of the array: replacing one that
      is not 0 by another one that is not 0 makes no difference. */
  lemma {:induction false} SubscriptsAreNotChecked(reg: Registry, f: Found, path: seq<Part>, k: nat, i: nat, j: nat)
    requires Ranked(reg) && Known(reg, f.ty) && k < |path| && i != 0 && j != 0 && path[k].index == Some(i)
    ensures Resolved(reg, f, path[k := path[k].(index := Some(j))]) == Resolved(reg, f, path)
    decreases |path|
  {
    var other := path[k := path[k].(index := Some(j))];
    if k == 0 {
      assert other[1..] == path[1..];
      assert ToMember(reg, f, other[0]) == ToMember(reg, f, path[0]);
    } else {
      assert other[0] == path[0] && other[1..] == path[1..][k - 1 := other[k]];
      if ToMember(reg, f, path[0]).Some? {
        SubscriptsAreNotChecked(reg, ToMember(reg, f, path[0]).value, path[1..], k - 1, i, j);
      }
    }
  }
}
