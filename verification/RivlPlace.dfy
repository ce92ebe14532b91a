/** Where the leaves of a value lie: naturally aligned at every depth when nothing on the
    way was packed, and in order and without overlap when every layout on the way fits in
    32 bits. */
module RivlPlace {
  import opened RivlRows
  import opened RivlLayout
  import opened RivlTypedef
  import opened RivlWalk

  // ----- Multiples of an alignment -----

  lemma RestSum(a: nat, b: nat, align: nat)
    requires IsAlignment(align) && Rest(a, align) == 0 && Rest(b, align) == 0
    ensures Rest(a + b, align) == 0
  {
  }

  lemma {:induction false} RestProduct(a: nat, n: nat, align: nat)
    requires IsAlignment(align) && Rest(a, align) == 0
    ensures Rest(a * n, align) == 0
  {
    if n > 0 {
      RestProduct(a, n - 1, align);
      RestSum(a * (n - 1), a, align);
      TimesStep(a, n);
    }
  }

  lemma RestSmaller(a: nat, small: nat, big: nat)
    requires IsAlignment(small) && IsAlignment(big) && small <= big && Rest(a, big) == 0
    ensures Rest(a, small) == 0
  {
  }

  lemma RoundUpIsMultiple(n: nat, align: nat)
    requires IsAlignment(align)
    ensures Rest(RoundUp(true, n, align), align) == 0
  {
    RoundUpExact(n, align);
    if align == 2 {
      ClipKeepsMultiple2(RoundUp(false, n, align));
    } else if align == 4 {
      ClipKeepsMultiple4(RoundUp(false, n, align));
    } else if align == 8 {
      ClipKeepsMultiple8(RoundUp(false, n, align));
    }
  }

  lemma ClipKeepsMultiple2(n: nat)
    requires n % 2 == 0
    ensures (n % WORD) % 2 == 0
  {
  }

  lemma ClipKeepsMultiple4(n: nat)
    requires n % 4 == 0
    ensures (n % WORD) % 4 == 0
  {
  }

  lemma ClipKeepsMultiple8(n: nat)
    requires n % 8 == 0
    ensures (n % WORD) % 8 == 0
  {
  }

  lemma BuiltIsAligned(reg: Registry, szPtr: nat, i: nat, k: nat)
    requires WellFormed(reg, szPtr) && i < |reg| && k < |reg[i].members|
    ensures var d := reg[i]; var m := d.members[k];
            && Known(reg, m.ty) && IsAlignment(d.align) && IsAlignment(TypeAlign(reg, m.ty))
            && Rest(d.size, d.align) == 0 && Rest(m.offset, TypeAlign(reg, m.ty)) == 0
            && (BuiltWith(reg, Config(DEFAULT_ALIGNMENT, szPtr), i) ==> TypeAlign(reg, m.ty) <= d.align)
  {
    hide RoundUp, Rest, LeafStep, Extent, LeafNum, TotalUpTo;
    var d := reg[i];
    var m := d.members[k];
    assert Built(reg, szPtr, i);
    PrefixTypes(reg, i, m.ty);
    var rows := Rows(reg[..i], szPtr, d.members);
    RoundUpIsMultiple(Total(true, d.isUnion, rows), d.align);
    assert m.offset == OffsetOf(true, d.isUnion, rows, k);
    RoundUpIsMultiple(End(true, rows, k), rows[k].align);
    ZeroIsMultiple(rows[k].align);
  }

  lemma ZeroIsMultiple(align: nat)
    requires IsAlignment(align)
    ensures Rest(0, align) == 0
  {
  }

  lemma SizeIsMultiple(reg: Registry, szPtr: nat, ty: TypeName)
    requires WellFormed(reg, szPtr) && Known(reg, ty)
    ensures IsAlignment(TypeAlign(reg, ty)) && Rest(TypeSize(reg, ty), TypeAlign(reg, ty)) == 0
  {
    if ty.Named? {
      var i := Find(reg, ty.name).value;
      assert Built(reg, szPtr, i);
      BuiltIsAligned(reg, szPtr, i, 0);
    }
  }

  // ----- Natural alignment -----

  ghost predicate Natural(ls: seq<Leaf>) {
    forall l <- ls :: Rest(l.off, KindSize(l.kind)) == 0
  }

  /** Neither the type nor any type inside it is aligned more loosely than its members;
      packing is what makes that happen. */
  ghost predicate Roomy(reg: Registry, ty: TypeName)
    requires Ranked(reg) && Known(reg, ty)
    decreases Rank(reg, ty), 0
  {
    ty.Named? ==>
      var i := Find(reg, ty.name).value;
      forall k :: 0 <= k < |reg[i].members| ==> RoomyMember(reg, i, k)
  }

  ghost predicate RoomyMember(reg: Registry, i: nat, k: nat)
    requires Ranked(reg) && i < |reg| && k < |reg[i].members|
    decreases i, 1
  {
    var m := reg[i].members[k];
    TypeAlign(reg, m.ty) <= reg[i].align && Roomy(reg, m.ty)
  }

  /** The type and all types inside it were defined under the default pack value. */
  ghost predicate Unpacked(reg: Registry, szPtr: nat, ty: TypeName)
    requires Ranked(reg) && Known(reg, ty)
    decreases Rank(reg, ty)
  {
    ty.Named? ==>
      var i := Find(reg, ty.name).value;
      && BuiltWith(reg, Config(DEFAULT_ALIGNMENT, szPtr), i)
      && forall k :: 0 <= k < |reg[i].members| ==>
           Rank(reg, reg[i].members[k].ty) <= i && Unpacked(reg, szPtr, reg[i].members[k].ty)
  }

  lemma {:induction false} UnpackedIsRoomy(reg: Registry, szPtr: nat, ty: TypeName)
    requires WellFormed(reg, szPtr) && Ranked(reg) && Known(reg, ty) && Unpacked(reg, szPtr, ty)
    ensures Roomy(reg, ty)
    decreases Rank(reg, ty)
  {
    hide WellFormed, BuiltWith;
    if ty.Named? {
      var i := Find(reg, ty.name).value;
      forall k | 0 <= k < |reg[i].members| ensures RoomyMember(reg, i, k) {
        BuiltIsAligned(reg, szPtr, i, k);
        UnpackedIsRoomy(reg, szPtr, reg[i].members[k].ty);
      }
    }
  }

  ghost predicate Aligned(reg: Registry, szPtr: nat, ty: TypeName, off: nat) {
    && WellFormed(reg, szPtr) && Ranked(reg) && Known(reg, ty) && Roomy(reg, ty)
    && IsAlignment(TypeAlign(reg, ty)) && Rest(off, TypeAlign(reg, ty)) == 0
  }

  lemma {:induction false} WalkOneNatural(reg: Registry, szPtr: nat, ty: TypeName, name: string, off: nat)
    requires Aligned(reg, szPtr, ty, off)
    ensures Natural(WalkOne(reg, ty, name, off))
    decreases Rank(reg, ty), 0, 0
  {
    hide Rest, WellFormed;
    if ty.Named? {
      var i := Find(reg, ty.name).value;
      WalkMembersNatural(reg, szPtr, i, |reg[i].members|, name, off);
    }
  }

  lemma {:induction false} WalkMembersNatural(
    reg: Registry, szPtr: nat, i: nat, k: nat, name: string, off: nat)
    requires WellFormed(reg, szPtr) && Ranked(reg)
    requires i < |reg| && k <= |reg[i].members| && forall j :: 0 <= j < k ==> RoomyMember(reg, i, j)
    requires IsAlignment(reg[i].align) && Rest(off, reg[i].align) == 0
    ensures Natural(WalkMembers(reg, i, k, name, off))
    decreases i, 3, k
  {
    hide Rest, WellFormed;
    if k > 0 {
      var m := reg[i].members[k - 1];
      assert RoomyMember(reg, i, k - 1);
      WalkMembersNatural(reg, szPtr, i, k - 1, name, off);
      BuiltIsAligned(reg, szPtr, i, k - 1);
      RestSmaller(off, TypeAlign(reg, m.ty), reg[i].align);
      RestSum(off, m.offset, TypeAlign(reg, m.ty));
      WalkNatural(reg, szPtr, m.ty, m.isArray, m.arrayNum, Dotted(name, m.name), off + m.offset);
    }
  }

  lemma {:induction false} WalkNatural(
    reg: Registry, szPtr: nat, ty: TypeName, isArray: bool, num: nat, name: string, off: nat)
    requires Aligned(reg, szPtr, ty, off)
    ensures Natural(Walk(reg, ty, isArray, num, name, off))
    decreases Rank(reg, ty), 2, 0
  {
    if isArray {
      WalkElementsNatural(reg, szPtr, ty, num, name, off);
    } else {
      WalkOneNatural(reg, szPtr, ty, name, off);
    }
  }

  lemma ElementIsAligned(reg: Registry, szPtr: nat, ty: TypeName, off: nat, n: nat)
    requires Aligned(reg, szPtr, ty, off)
    ensures Aligned(reg, szPtr, ty, ElementOff(reg, ty, off, n))
  {
    hide Rest;
    SizeIsMultiple(reg, szPtr, ty);
    RestProduct(TypeSize(reg, ty), n, TypeAlign(reg, ty));
    RestSum(off, TypeSize(reg, ty) * n, TypeAlign(reg, ty));
  }

  lemma {:induction false} WalkElementsNatural(
    reg: Registry, szPtr: nat, ty: TypeName, n: nat, name: string, off: nat)
    requires Aligned(reg, szPtr, ty, off)
    ensures Natural(WalkElements(reg, ty, n, name, off))
    decreases Rank(reg, ty), 1, n
  {
    hide Rest, WellFormed, ElementOff, IsAlignment;
    if n > 0 {
      WalkElementsNatural(reg, szPtr, ty, n - 1, name, off);
      ElementIsAligned(reg, szPtr, ty, off, n - 1);
      WalkOneNatural(reg, szPtr, ty, Indexed(name, n - 1), ElementOff(reg, ty, off, n - 1));
    }
  }

  ghost predicate NaturallyAligned(ls: seq<Leaf>) { forall l <- ls :: l.off % KindSize(l.kind) == 0 }

  lemma NaturalIsAligned(ls: seq<Leaf>)
    requires Natural(ls)
    ensures NaturallyAligned(ls)
  {
    forall l <- ls ensures l.off % KindSize(l.kind) == 0 {
      RestIsRemainder(l.off, KindSize(l.kind));
    }
  }

  /** Every leaf of such a type, through any nesting of structs, unions and array indices,
      lies at a multiple of its own size, whatever the other types in the registry are. A
      pointer member is walked, and here counted, as what it points to. */
  lemma {:induction false} LeavesAreNaturallyAligned(
    reg: Registry, szPtr: nat, ty: TypeName, isArray: bool, num: nat, name: string)
    requires WellFormed(reg, szPtr) && Ranked(reg) && Known(reg, ty)
    requires Roomy(reg, ty) || Unpacked(reg, szPtr, ty)
    ensures NaturallyAligned(Walk(reg, ty, isArray, num, name, 0))
  {
    hide Roomy, Unpacked, WellFormed, Ranked, Rest;
    if !Roomy(reg, ty) {
      UnpackedIsRoomy(reg, szPtr, ty);
    }
    SizeIsMultiple(reg, szPtr, ty);
    ZeroIsMultiple(TypeAlign(reg, ty));
    WalkNatural(reg, szPtr, ty, isArray, num, name, 0);
    NaturalIsAligned(Walk(reg, ty, isArray, num, name, 0));
  }

  // ----- Leaves do not overlap -----

  /** The leaves lie in order between the two offsets. */
  ghost predicate Tiled(ls: seq<Leaf>, lo: nat, hi: nat) {
    && (forall a :: 0 <= a < |ls| ==> lo <= ls[a].off && ls[a].off + KindSize(ls[a].kind) <= hi)
    && (forall a, b :: 0 <= a < b < |ls| ==> ls[a].off + KindSize(ls[a].kind) <= ls[b].off)
  }

  lemma TiledJoin(xs: seq<Leaf>, ys: seq<Leaf>, lo: nat, mid: nat, from: nat, hi: nat)
    requires Tiled(xs, lo, mid) && Tiled(ys, from, hi) && lo <= mid <= from <= hi
    ensures Tiled(xs + ys, lo, hi)
  {
    var zs := xs + ys;
    forall a, b | 0 <= a < b < |zs| ensures zs[a].off + KindSize(zs[a].kind) <= zs[b].off {
      if a < |xs| <= b {
        assert zs[a] == xs[a] && zs[b] == ys[b - |xs|];
      }
    }
  }

  /** Structs only, no pointers, and every layout on the way fits in 32 bits. */
  ghost predicate Transportable(reg: Registry, szPtr: nat, ty: TypeName)
    requires Ranked(reg) && Known(reg, ty)
    decreases Rank(reg, ty)
  {
    match ty
    case Basic(_) => true
    case Named(n) =>
      var i := Find(reg, n).value;
      && !reg[i].isUnion
      && AllKnown(reg, reg[i].members) && Contained(reg, szPtr, reg[i])
      && forall k :: 0 <= k < |reg[i].members| ==>
           && !reg[i].members[k].isPtr
           && Rank(reg, reg[i].members[k].ty) <= i && Transportable(reg, szPtr, reg[i].members[k].ty)
  }

  lemma {:induction false} WalkOneTiled(reg: Registry, szPtr: nat, ty: TypeName, name: string, off: nat)
    requires Ranked(reg) && Known(reg, ty) && Transportable(reg, szPtr, ty)
    ensures Tiled(WalkOne(reg, ty, name, off), off, off + TypeSize(reg, ty))
    decreases Rank(reg, ty), 0
  {
    hide Extent, Tiled;
    if ty.Named? {
      var i := Find(reg, ty.name).value;
      var n := |reg[i].members|;
      forall k | 0 <= k < n
        ensures MemberTiled(reg, szPtr, i, k, name, off) && MemberFollows(reg, szPtr, reg[i], k)
      {
        var m := reg[i].members[k];
        TransportableMember(reg, szPtr, i, ty, k);
        WalkTiled(reg, szPtr, m, Dotted(name, m.name), off + m.offset);
      }
      MembersInOrder(reg, szPtr, i, n, name, off);
      WidenTiled(WalkOne(reg, ty, name, off), off, off + Before(reg, szPtr, reg[i], n), off + reg[i].size);
    } else {
      SingleTiled(Leaf(name, off, ty.kind));
    }
  }

  lemma SingleTiled(l: Leaf)
    ensures Tiled([l], l.off, l.off + KindSize(l.kind))
  {
  }

  lemma WidenTiled(ls: seq<Leaf>, lo: nat, mid: nat, hi: nat)
    requires Tiled(ls, lo, mid) && mid <= hi
    ensures Tiled(ls, lo, hi)
  {
  }

  /** What a transportable struct says about its member k. */
  lemma {:induction false} TransportableMember(reg: Registry, szPtr: nat, i: nat, ty: TypeName, k: nat)
    requires Ranked(reg) && Known(reg, ty) && ty.Named? && Transportable(reg, szPtr, ty)
    requires i == Find(reg, ty.name).value && k < |reg[i].members|
    ensures AllKnown(reg, reg[i].members)
    ensures var m := reg[i].members[k];
            && Known(reg, m.ty) && !m.isPtr && Rank(reg, m.ty) <= i && Transportable(reg, szPtr, m.ty)
            && MemberFollows(reg, szPtr, reg[i], k)
  {
    hide Extent;
    assert MemberFollows(reg, szPtr, reg[i], k);
  }

  /** The leaves of member k lie inside its place. */
  ghost predicate MemberTiled(reg: Registry, szPtr: nat, i: nat, k: nat, name: string, off: nat)
    requires Ranked(reg) && i < |reg| && AllKnown(reg, reg[i].members) && k < |reg[i].members|
  {
    var m := reg[i].members[k];
    Tiled(Walk(reg, m.ty, m.isArray, m.arrayNum, Dotted(name, m.name), off + m.offset),
          off + m.offset, off + PastEnd(reg, szPtr, m))
  }

  lemma {:induction false} MembersInOrder(reg: Registry, szPtr: nat, i: nat, k: nat, name: string, off: nat)
    requires Ranked(reg) && i < |reg| && AllKnown(reg, reg[i].members) && k <= |reg[i].members|
    requires forall j :: 0 <= j < k ==> MemberTiled(reg, szPtr, i, j, name, off)
    requires forall j :: 0 <= j < k ==> MemberFollows(reg, szPtr, reg[i], j)
    ensures Tiled(WalkMembers(reg, i, k, name, off), off, off + Before(reg, szPtr, reg[i], k))
    decreases k
  {
    hide Extent, Tiled;
    if k == 0 {
      EmptyTiled(off);
    } else {
      var m := reg[i].members[k - 1];
      MembersInOrder(reg, szPtr, i, k - 1, name, off);
      assert MemberTiled(reg, szPtr, i, k - 1, name, off) && MemberFollows(reg, szPtr, reg[i], k - 1);
      TiledJoin(WalkMembers(reg, i, k - 1, name, off),
                Walk(reg, m.ty, m.isArray, m.arrayNum, Dotted(name, m.name), off + m.offset),
                off, off + Before(reg, szPtr, reg[i], k - 1), off + m.offset, off + PastEnd(reg, szPtr, m));
    }
  }

  lemma EmptyTiled(off: nat)
    ensures Tiled([], off, off)
  {
  }

  lemma ExtentOf(reg: Registry, szPtr: nat, m: Member, off: nat)
    requires Known(reg, m.ty) && !m.isPtr
    ensures off + Extent(reg, szPtr, m) ==
            if m.isArray then ElementOff(reg, m.ty, off, m.arrayNum) else off + TypeSize(reg, m.ty)
  {
  }

  lemma ElementStep(reg: Registry, ty: TypeName, off: nat, n: nat)
    requires Known(reg, ty)
    ensures ElementOff(reg, ty, off, 0) == off
    ensures n > 0 ==> ElementOff(reg, ty, off, n) == ElementOff(reg, ty, off, n - 1) + TypeSize(reg, ty)
    ensures ElementOff(reg, ty, off, n) >= off
  {
    if n > 0 {
      TimesStep(TypeSize(reg, ty), n);
    }
  }

  lemma {:induction false} WalkTiled(reg: Registry, szPtr: nat, m: Member, name: string, off: nat)
    requires Ranked(reg) && Known(reg, m.ty) && !m.isPtr && Transportable(reg, szPtr, m.ty)
    ensures Tiled(Walk(reg, m.ty, m.isArray, m.arrayNum, name, off), off, off + Extent(reg, szPtr, m))
    decreases Rank(reg, m.ty), 2
  {
    hide Extent, Transportable, Tiled, ElementOff;
    ExtentOf(reg, szPtr, m, off);
    if m.isArray {
      WalkElementsTiled(reg, szPtr, m.ty, m.arrayNum, name, off);
    } else {
      WalkOneTiled(reg, szPtr, m.ty, name, off);
    }
  }

  lemma {:induction false} WalkElementsTiled(
    reg: Registry, szPtr: nat, ty: TypeName, n: nat, name: string, off: nat)
    requires Ranked(reg) && Known(reg, ty) && Transportable(reg, szPtr, ty)
    ensures Tiled(WalkElements(reg, ty, n, name, off), off, ElementOff(reg, ty, off, n))
    decreases Rank(reg, ty), 1, n
  {
    hide Transportable, Tiled, ElementOff;
    ElementStep(reg, ty, off, n);
    if n == 0 {
      EmptyTiled(off);
    } else {
      var mid := ElementOff(reg, ty, off, n - 1);
      ElementStep(reg, ty, off, n - 1);
      WalkElementsTiled(reg, szPtr, ty, n - 1, name, off);
      WalkOneTiled(reg, szPtr, ty, Indexed(name, n - 1), mid);
      TiledJoin(WalkElements(reg, ty, n - 1, name, off),
                WalkOne(reg, ty, Indexed(name, n - 1), mid),
                off, mid, mid, ElementOff(reg, ty, off, n));
    }
  }

  /** The bytes of a variable, which may be an array. */
  function VariableSize(reg: Registry, ty: TypeName, isArray: bool, num: nat): nat
    requires Known(reg, ty)
  {
    if isArray then ElementOff(reg, ty, 0, num) else TypeSize(reg, ty)
  }

  lemma VariableTiled(reg: Registry, szPtr: nat, ty: TypeName, isArray: bool, num: nat, name: string)
    requires Ranked(reg) && Known(reg, ty) && Transportable(reg, szPtr, ty)
    ensures Tiled(Walk(reg, ty, isArray, num, name, 0), 0, VariableSize(reg, ty, isArray, num))
  {
    hide Transportable, Tiled;
    if isArray {
      WalkElementsTiled(reg, szPtr, ty, num, name, 0);
    } else {
      WalkOneTiled(reg, szPtr, ty, name, 0);
    }
  }

  // ----- When a defined type is laid out soundly -----

  /** A type in the registry is sound exactly when the size that was meant for it fits
      in 32 bits. */
  lemma DefinedIsContainedIffFits(reg: Registry, szPtr: nat, i: nat)
    requires WellFormed(reg, szPtr) && i < |reg|
    ensures Built(reg, szPtr, i) && AllKnown(reg, reg[i].members)
    ensures var cfg := SettingOf(reg, szPtr, i);
            && Definable(reg[..i], cfg, reg[i].members)
            && (Contained(reg, szPtr, reg[i]) <==>
                  NewDef(reg[..i], cfg, false, reg[i].name, reg[i].isUnion, reg[i].members).size < WORD)
  {
    var d := reg[i];
    assert Built(reg, szPtr, i);
    ContainedIffFits(reg[..i], SettingOf(reg, szPtr, i), d.name, d.isUnion, d.members);
    hide NewDef;
    forall k | 0 <= k < |d.members|
      ensures Known(reg, d.members[k].ty) && IsAlignment(TypeAlign(reg, d.members[k].ty))
      ensures PastEnd(reg, szPtr, d.members[k]) == PastEnd(reg[..i], szPtr, d.members[k])
    {
      PrefixTypes(reg, i, d.members[k].ty);
    }
    SameContainment(reg, reg[..i], szPtr, d);
  }

  lemma SameContainment(reg: Registry, reg': Registry, szPtr: nat, d: Def)
    requires AllKnown(reg, d.members) && AllKnown(reg', d.members)
    requires forall k :: 0 <= k < |d.members| ==>
               PastEnd(reg, szPtr, d.members[k]) == PastEnd(reg', szPtr, d.members[k])
    ensures Contained(reg, szPtr, d) <==> Contained(reg', szPtr, d)
  {
    hide PastEnd;
    forall k | 0 <= k < |d.members|
      ensures MemberFollows(reg, szPtr, d, k) <==> MemberFollows(reg', szPtr, d, k)
    {
    }
  }

  /** An array of 2^30 UINT32 followed by a UINT8: the array's extent wraps to 0, so
      both members start at offset 0. */
  lemma HugeArrayOverlaps()
    ensures var cfg := Config(8, 4);
            var ms := [Member("a", Basic(Int32), true, false, 0x4000_0000, 0),
                       Member("b", Basic(Int8), false, false, 1, 0)];
            && Definable([], cfg, ms)
            && var d := NewDef([], cfg, true, "S", false, ms);
               d.members[0].offset == 0 && d.members[1].offset == 0 && d.size == 4
  {
    var cfg := Config(8, 4);
    var ms := [Member("a", Basic(Int32), true, false, 0x4000_0000, 0),
               Member("b", Basic(Int8), false, false, 1, 0)];
    var rows := Rows([], 4, ms);
    assert rows[0] == RowOf([], 4, ms[0]) == Row(4, WORD);
    assert rows[1] == RowOf([], 4, ms[1]) == Row(1, 1);
    assert End(true, rows, 1) == 0;
    assert End(true, rows, 2) == 1;
    assert MaxAlign([], ms, 1) == 4;
    assert MaxAlign([], ms, 2) == 4;
  }
}
