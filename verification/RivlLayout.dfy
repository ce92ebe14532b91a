/** `Struct` and `Union` definitions: the registry of defined types, the definition that is
    computed from the parsed members under a pack value and a pointer size, and what the
    computed offsets, size and alignment guarantee. */
module RivlLayout {
  import opened Basics
  import opened RivlRows

  /** The basic types. Signed and unsigned types share their routines; `INTN` and
      `UINTN` are `Int32` or `Int64`, as the target bits say. */
  datatype Kind = Bool | Int8 | Int16 | Int32 | Int64

  function KindSize(k: Kind): nat {
    match k
    case Bool => 1
    case Int8 => 1
    case Int16 => 2
    case Int32 => 4
    case Int64 => 8
  }

  datatype TypeName = Basic(kind: Kind) | Named(name: string)

  /** One type/name pair of a definition; `offset` is filled in by the layout. */
  datatype Member = Member(
    name: string, ty: TypeName, isArray: bool, isPtr: bool, arrayNum: nat, offset: nat)

  datatype Def = Def(
    name: string, isUnion: bool, members: seq<Member>, size: nat, align: nat, totalMemberNum: nat)

  /** The defined types, oldest first. */
  type Registry = seq<Def>

  function Find(reg: Registry, name: string): (r: Option<nat>)
    ensures r.Some? ==> r.value < |reg| && reg[r.value].name == name
    ensures r.None? ==> forall i :: 0 <= i < |reg| ==> reg[i].name != name
  {
    if reg == [] then None
    else if reg[0].name == name then Some(0)
    else match Find(reg[1..], name)
      case None => None
      case Some(i) => Some(i + 1)
  }

  /** Definitions that are added later do not change what a name means. */
  lemma {:induction false} FindInPrefix(reg: Registry, more: Registry, name: string)
    requires Find(reg, name).Some?
    ensures Find(reg + more, name) == Find(reg, name)
  {
    assert (reg + more)[0] == reg[0] && (reg + more)[1..] == reg[1..] + more;
    if reg[0].name != name {
      FindInPrefix(reg[1..], more, name);
    }
  }

  predicate Known(reg: Registry, ty: TypeName) { ty.Basic? || Find(reg, ty.name).Some? }

  function DefOf(reg: Registry, ty: TypeName): Def
    requires Known(reg, ty) && ty.Named?
  {
    reg[Find(reg, ty.name).value]
  }

  function TypeSize(reg: Registry, ty: TypeName): nat
    requires Known(reg, ty)
  {
    if ty.Basic? then KindSize(ty.kind) else DefOf(reg, ty).size
  }

  function TypeAlign(reg: Registry, ty: TypeName): nat
    requires Known(reg, ty)
  {
    if ty.Basic? then KindSize(ty.kind) else DefOf(reg, ty).align
  }

  function TypeLeafNum(reg: Registry, ty: TypeName): nat
    requires Known(reg, ty)
  {
    if ty.Basic? then 1 else DefOf(reg, ty).totalMemberNum
  }

  function Count(m: Member): nat { if m.isArray then m.arrayNum else 1 }

  // ----- The layout that the command computes -----

  /** What a definition is made under: `RivlAlignments`, which the Pack command switches
      between definitions, and `SZ_PTR`, which is fixed when the program is built. */
  datatype Config = Config(pack: nat, szPtr: nat)

  const DEFAULT_ALIGNMENT: nat := 8

  predicate ProperConfig(cfg: Config) { cfg.pack == 1 || cfg.pack == DEFAULT_ALIGNMENT }

  predicate KnownUpTo(reg: Registry, ms: seq<Member>, n: nat)
    requires n <= |ms|
  {
    forall k :: 0 <= k < n ==> Known(reg, ms[k].ty) && IsAlignment(TypeAlign(reg, ms[k].ty))
  }

  predicate AllKnown(reg: Registry, ms: seq<Member>) { KnownUpTo(reg, ms, |ms|) }

  function Element(reg: Registry, szPtr: nat, m: Member): nat
    requires Known(reg, m.ty)
  {
    if m.isPtr then szPtr else TypeSize(reg, m.ty)
  }

  /** The exact number of bytes that a member takes. */
  function Extent(reg: Registry, szPtr: nat, m: Member): nat
    requires Known(reg, m.ty)
  {
    Count(m) * Element(reg, szPtr, m)
  }

  function RowOf(reg: Registry, szPtr: nat, m: Member): Row
    requires Known(reg, m.ty)
  {
    Row(TypeAlign(reg, m.ty), Extent(reg, szPtr, m))
  }

  function Rows(reg: Registry, szPtr: nat, ms: seq<Member>): (rows: seq<Row>)
    requires AllKnown(reg, ms)
    ensures |rows| == |ms| && Proper(rows)
    ensures forall k :: 0 <= k < |ms| ==> rows[k] == RowOf(reg, szPtr, ms[k])
  {
    seq(|ms|, k requires 0 <= k < |ms| => RowOf(reg, szPtr, ms[k]))
  }

  /** Adds `count` times `each` leaves to the count, in 32-bit arithmetic. */
  function LeafStep(leaves: nat, each: nat, count: nat): nat { (leaves + (each * count) % WORD) % WORD }

  /** The first loop: leaf count and largest alignment of the first k members. */
  function LeafNum(reg: Registry, ms: seq<Member>, k: nat): nat
    requires k <= |ms| && KnownUpTo(reg, ms, k)
  {
    if k == 0 then 0
    else LeafStep(LeafNum(reg, ms, k - 1), TypeLeafNum(reg, ms[k - 1].ty), Count(ms[k - 1]))
  }

  function MaxAlign(reg: Registry, ms: seq<Member>, k: nat): (r: nat)
    requires k <= |ms| && KnownUpTo(reg, ms, k)
    ensures if k == 0 then r == 0 else IsAlignment(r)
    ensures forall i :: 0 <= i < k ==> TypeAlign(reg, ms[i].ty) <= r
    ensures k > 0 ==> exists i :: 0 <= i < k && TypeAlign(reg, ms[i].ty) == r
  {
    if k == 0 then 0
    else
      var r := Max(MaxAlign(reg, ms, k - 1), TypeAlign(reg, ms[k - 1].ty));
      assert r == TypeAlign(reg, ms[k - 1].ty) ||
             (k > 1 && exists i :: 0 <= i < k - 1 && TypeAlign(reg, ms[i].ty) == r);
      r
  }

  function Align(reg: Registry, cfg: Config, ms: seq<Member>): (r: nat)
    requires ms != [] && AllKnown(reg, ms) && ProperConfig(cfg)
    ensures IsAlignment(r)
  {
    Min(MaxAlign(reg, ms, |ms|), cfg.pack)
  }

  /** The running total after k members. */
  function TotalUpTo(wrap: bool, isUnion: bool, rows: seq<Row>, k: nat): nat
    requires Proper(rows) && k <= |rows|
  {
    if isUnion then Widest(wrap, rows, k) else End(wrap, rows, k)
  }

  function Total(wrap: bool, isUnion: bool, rows: seq<Row>): nat
    requires Proper(rows)
  {
    TotalUpTo(wrap, isUnion, rows, |rows|)
  }

  function OffsetOf(wrap: bool, isUnion: bool, rows: seq<Row>, k: nat): nat
    requires Proper(rows) && k < |rows|
  {
    if isUnion then 0 else Offset(wrap, rows, k)
  }

  predicate Definable(reg: Registry, cfg: Config, ms: seq<Member>) {
    ms != [] && AllKnown(reg, ms) && ProperConfig(cfg)
  }

  /** The type that a definition adds; with `wrap` as the code computes it. */
  function NewDef(reg: Registry, cfg: Config, wrap: bool, name: string, isUnion: bool, ms: seq<Member>): Def
    requires Definable(reg, cfg, ms)
  {
    var rows := Rows(reg, cfg.szPtr, ms);
    Def(name, isUnion,
        seq(|ms|, k requires 0 <= k < |ms| => ms[k].(offset := OffsetOf(wrap, isUnion, rows, k))),
        RoundUp(wrap, Total(wrap, isUnion, rows), Align(reg, cfg, ms)),
        Align(reg, cfg, ms),
        LeafNum(reg, ms, |ms|))
  }

  // ----- What the layout guarantees -----

  /** The first byte after member m, in exact arithmetic. */
  function PastEnd(reg: Registry, szPtr: nat, m: Member): nat
    requires Known(reg, m.ty)
  {
    m.offset + Extent(reg, szPtr, m)
  }

  /** Member k of a struct starts after the one before it and ends inside the type. */
  ghost predicate MemberFollows(reg: Registry, szPtr: nat, d: Def, k: nat)
    requires AllKnown(reg, d.members) && k < |d.members|
  {
    && PastEnd(reg, szPtr, d.members[k]) <= d.size
    && (k > 0 ==> PastEnd(reg, szPtr, d.members[k - 1]) <= d.members[k].offset)
  }

  /** The members lie inside the type; those of a struct follow one another, so no
      two overlap, and those of a union all start at 0. */
  ghost predicate Contained(reg: Registry, szPtr: nat, d: Def)
    requires AllKnown(reg, d.members)
  {
    forall k :: 0 <= k < |d.members| ==>
      if d.isUnion then d.members[k].offset == 0 && PastEnd(reg, szPtr, d.members[k]) <= d.size
      else MemberFollows(reg, szPtr, d, k)
  }

  /** Where the member before member k ends. */
  function Before(reg: Registry, szPtr: nat, d: Def, k: nat): nat
    requires AllKnown(reg, d.members) && k <= |d.members|
  {
    if k == 0 then 0 else PastEnd(reg, szPtr, d.members[k - 1])
  }

  /** Every offset is the least multiple of the member's alignment at or after the
      end of the previous member; the type ends at the least multiple of its own
      alignment after its last, or in a union its longest, member. */
  ghost predicate Tight(reg: Registry, szPtr: nat, d: Def)
    requires AllKnown(reg, d.members)
  {
    var n := |d.members|;
    && d.align > 0 && d.size % d.align == 0
    && (!d.isUnion ==> Before(reg, szPtr, d, n) <= d.size < Before(reg, szPtr, d, n) + d.align)
    && (d.isUnion ==> exists k :: 0 <= k < n && d.size < PastEnd(reg, szPtr, d.members[k]) + d.align)
    && (forall k :: 0 <= k < n && !d.isUnion ==>
          && d.members[k].offset % TypeAlign(reg, d.members[k].ty) == 0
          && Before(reg, szPtr, d, k) <= d.members[k].offset
             < Before(reg, szPtr, d, k) + TypeAlign(reg, d.members[k].ty))
  }

  lemma SameTypes(reg: Registry, cfg: Config, wrap: bool, name: string, isUnion: bool, ms: seq<Member>)
    requires Definable(reg, cfg, ms)
    ensures var d := NewDef(reg, cfg, wrap, name, isUnion, ms);
            AllKnown(reg, d.members) && Rows(reg, cfg.szPtr, d.members) == Rows(reg, cfg.szPtr, ms)
  {
    hide RoundUp, TotalUpTo, LeafNum, OffsetOf, MaxAlign;
    var d := NewDef(reg, cfg, wrap, name, isUnion, ms);
    assert forall k :: 0 <= k < |ms| ==> d.members[k].ty == ms[k].ty;
  }

  /** Containment of a definition is a statement about its rows. */
  lemma ContainedIsInOrder(reg: Registry, szPtr: nat, d: Def)
    requires AllKnown(reg, d.members)
    requires var rows := Rows(reg, szPtr, d.members);
             forall k :: 0 <= k < |rows| ==> d.members[k].offset == OffsetOf(true, d.isUnion, rows, k)
    ensures var rows := Rows(reg, szPtr, d.members);
            Contained(reg, szPtr, d) <==>
              if d.isUnion then forall k :: 0 <= k < |rows| ==> rows[k].extent <= d.size
              else InOrder(rows, d.size)
  {
    hide Extent, Offset, RoundUp;
    var rows := Rows(reg, szPtr, d.members);
    assert forall k :: 0 <= k < |rows| ==>
             PastEnd(reg, szPtr, d.members[k]) == d.members[k].offset + rows[k].extent;
    if !d.isUnion {
      forall k | 0 <= k < |rows|
        ensures Follows(rows, k, d.size) <==> MemberFollows(reg, szPtr, d, k)
      {
      }
      if InOrder(rows, d.size) {
        forall k | 0 <= k < |rows| ensures MemberFollows(reg, szPtr, d, k) {
          assert Follows(rows, k, d.size);
        }
      }
      if Contained(reg, szPtr, d) {
        forall k | 0 <= k < |rows| ensures Follows(rows, k, d.size) {
          assert MemberFollows(reg, szPtr, d, k);
        }
      }
    }
  }

  /** The layout of the code is sound exactly when the size that is meant fits in
      32 bits, and then the code's layout is the one that is meant. */
  lemma ContainedIffFits(reg: Registry, cfg: Config, name: string, isUnion: bool, ms: seq<Member>)
    requires Definable(reg, cfg, ms)
    ensures var d := NewDef(reg, cfg, true, name, isUnion, ms);
            var meant := NewDef(reg, cfg, false, name, isUnion, ms);
            && AllKnown(reg, d.members)
            && (Contained(reg, cfg.szPtr, d) <==> meant.size < WORD)
            && (meant.size < WORD ==> d == meant)
  {
    hide LeafNum, RoundUp, Extent, MaxAlign, End, Widest, Offset, Contained, InOrder;
    var d := NewDef(reg, cfg, true, name, isUnion, ms);
    var rows := Rows(reg, cfg.szPtr, ms);
    SameTypes(reg, cfg, true, name, isUnion, ms);
    ContainedIsInOrder(reg, cfg.szPtr, d);
    if isUnion {
      UnionFitsIffContained(rows, d.align);
    } else {
      StructFitsIffInOrder(rows, d.align);
    }
    assert NewDef(reg, cfg, false, name, isUnion, ms).size < WORD ==>
             d.members == NewDef(reg, cfg, false, name, isUnion, ms).members;
  }

  ghost predicate MeantStruct(reg: Registry, szPtr: nat, d: Def, rows: seq<Row>) {
    && AllKnown(reg, d.members) && rows == Rows(reg, szPtr, d.members)
    && forall k :: 0 <= k < |rows| ==> d.members[k].offset == Offset(false, rows, k)
  }

  lemma {:induction false} StructEnd(reg: Registry, szPtr: nat, d: Def, rows: seq<Row>, k: nat)
    requires MeantStruct(reg, szPtr, d, rows) && k <= |rows|
    ensures Before(reg, szPtr, d, k) == End(false, rows, k)
  {
    if k > 0 {
      EndGrows(rows, k - 1);
      assert rows[k - 1] == RowOf(reg, szPtr, d.members[k - 1]);
    }
  }

  lemma StructMemberIsTight(reg: Registry, szPtr: nat, d: Def, rows: seq<Row>, k: nat)
    requires MeantStruct(reg, szPtr, d, rows) && k < |rows|
    ensures d.members[k].offset % TypeAlign(reg, d.members[k].ty) == 0
    ensures Before(reg, szPtr, d, k) <= d.members[k].offset
            < Before(reg, szPtr, d, k) + TypeAlign(reg, d.members[k].ty)
  {
    StructEnd(reg, szPtr, d, rows, k);
    EndGrows(rows, k);
    RestIsRemainder(d.members[k].offset, rows[k].align);
  }

  lemma {:induction false} MeantStructIsTight(reg: Registry, szPtr: nat, d: Def, rows: seq<Row>)
    requires MeantStruct(reg, szPtr, d, rows) && !d.isUnion && IsAlignment(d.align)
    requires d.size == RoundUp(false, End(false, rows, |rows|), d.align)
    ensures Tight(reg, szPtr, d)
  {
    RoundUpExact(End(false, rows, |rows|), d.align);
    RestIsRemainder(d.size, d.align);
    StructEnd(reg, szPtr, d, rows, |rows|);
    forall k | 0 <= k < |rows|
      ensures d.members[k].offset % TypeAlign(reg, d.members[k].ty) == 0
      ensures Before(reg, szPtr, d, k) <= d.members[k].offset
              < Before(reg, szPtr, d, k) + TypeAlign(reg, d.members[k].ty)
    {
      StructMemberIsTight(reg, szPtr, d, rows, k);
    }
  }

  lemma {:induction false} MeantUnionIsTight(reg: Registry, szPtr: nat, d: Def, rows: seq<Row>)
    requires AllKnown(reg, d.members) && rows == Rows(reg, szPtr, d.members) && rows != []
    requires d.isUnion && IsAlignment(d.align) && forall k :: 0 <= k < |rows| ==> d.members[k].offset == 0
    requires d.size == RoundUp(false, Widest(false, rows, |rows|), d.align)
    ensures Tight(reg, szPtr, d)
  {
    var n := |rows|;
    WidestIsMaximum(rows, n);
    RoundUpExact(Widest(false, rows, n), d.align);
    RestIsRemainder(d.size, d.align);
    var k :| 0 <= k < n && rows[k].extent == Widest(false, rows, n);
    assert PastEnd(reg, szPtr, d.members[k]) == rows[k].extent;
  }

  /** A layout that fits in 32 bits leaves no avoidable gap. */
  lemma FittingLayoutIsTight(reg: Registry, cfg: Config, name: string, isUnion: bool, ms: seq<Member>)
    requires Definable(reg, cfg, ms) && NewDef(reg, cfg, false, name, isUnion, ms).size < WORD
    ensures var d := NewDef(reg, cfg, true, name, isUnion, ms);
            AllKnown(reg, d.members) && Tight(reg, cfg.szPtr, d)
  {
    var d := NewDef(reg, cfg, false, name, isUnion, ms);
    var rows := Rows(reg, cfg.szPtr, ms);
    SameTypes(reg, cfg, false, name, isUnion, ms);
    ContainedIffFits(reg, cfg, name, isUnion, ms);
    if isUnion {
      MeantUnionIsTight(reg, cfg.szPtr, d, rows);
    } else {
      MeantStructIsTight(reg, cfg.szPtr, d, rows);
    }
  }

  /** The bytes of a member: a pointer takes the pointer size, whatever it points to. */
  lemma RoomOfMember(reg: Registry, szPtr: nat, m: Member)
    requires Known(reg, m.ty)
    ensures var each := if m.isPtr then szPtr else TypeSize(reg, m.ty);
            PastEnd(reg, szPtr, m) == m.offset + if m.isArray then each * m.arrayNum else each
  {
  }

  /** The room between the start of a member of a struct and the start of the next one, or
      the end of the type, is that of its elements and less than one more alignment. */
  lemma NextMember(reg: Registry, szPtr: nat, d: Def, k: nat)
    requires AllKnown(reg, d.members) && k < |d.members| && !d.isUnion && Tight(reg, szPtr, d)
    ensures var m := d.members[k];
            var each := if m.isPtr then szPtr else TypeSize(reg, m.ty);
            var end := m.offset + if m.isArray then each * m.arrayNum else each;
            if k + 1 < |d.members|
            then end <= d.members[k + 1].offset < end + TypeAlign(reg, d.members[k + 1].ty)
            else end <= d.size < end + d.align
  {
    hide PastEnd, IsAlignment;
    RoomOfMember(reg, szPtr, d.members[k]);
    assert Before(reg, szPtr, d, k + 1) == PastEnd(reg, szPtr, d.members[k]);
  }

  // ----- What the pack value does -----

  /** A type is aligned like the strictest of its members, and never more strictly than
      the pack value. */
  ghost predicate Packed(reg: Registry, pack: nat, d: Def)
    requires AllKnown(reg, d.members)
  {
    && d.align <= pack
    && (forall k :: 0 <= k < |d.members| ==> TypeAlign(reg, d.members[k].ty) <= d.align || d.align == pack)
    && (d.align == pack || exists k :: 0 <= k < |d.members| && TypeAlign(reg, d.members[k].ty) == d.align)
  }

  lemma AlignIsPacked(reg: Registry, cfg: Config, name: string, isUnion: bool, ms: seq<Member>)
    requires Definable(reg, cfg, ms)
    ensures var d := NewDef(reg, cfg, true, name, isUnion, ms);
            AllKnown(reg, d.members) && Packed(reg, cfg.pack, d)
  {
    hide RoundUp, TotalUpTo, LeafNum, OffsetOf;
    SameTypes(reg, cfg, true, name, isUnion, ms);
    var d := NewDef(reg, cfg, true, name, isUnion, ms);
    assert forall k :: 0 <= k < |ms| ==> d.members[k].ty == ms[k].ty;
  }

  lemma SameMembers(reg: Registry, cfg: Config, name: string, isUnion: bool, ms: seq<Member>)
    requires Definable(reg, cfg, ms)
    ensures var d := NewDef(reg, cfg, true, name, isUnion, ms); d.isUnion == isUnion && |d.members| == |ms| > 0
  {
  }

  /** Under `Pack 1` nothing follows the last member of a struct, or the longest one of a union. */
  lemma PackedEndsWithMember(reg: Registry, cfg: Config, name: string, isUnion: bool, ms: seq<Member>)
    requires Definable(reg, cfg, ms) && NewDef(reg, cfg, false, name, isUnion, ms).size < WORD
    requires cfg.pack == 1
    ensures var d := NewDef(reg, cfg, true, name, isUnion, ms);
            && d.align == 1 && |d.members| == |ms| && AllKnown(reg, d.members)
            && (forall k :: 0 <= k < |ms| ==> PastEnd(reg, cfg.szPtr, d.members[k]) <= d.size)
            && (exists k :: 0 <= k < |ms| && PastEnd(reg, cfg.szPtr, d.members[k]) == d.size)
            && (!isUnion ==> PastEnd(reg, cfg.szPtr, d.members[|ms| - 1]) == d.size)
  {
    hide NewDef, AllKnown, ProperConfig, Contained, Tight, PastEnd;
    var d := NewDef(reg, cfg, true, name, isUnion, ms);
    SameMembers(reg, cfg, name, isUnion, ms);
    AlignIsPacked(reg, cfg, name, isUnion, ms);
    ContainedIffFits(reg, cfg, name, isUnion, ms);
    FittingLayoutIsTight(reg, cfg, name, isUnion, ms);
    UnpaddedEnds(reg, cfg.szPtr, d);
  }

  lemma UnpaddedEnds(reg: Registry, szPtr: nat, d: Def)
    requires AllKnown(reg, d.members) && d.members != [] && d.align <= 1
    requires Contained(reg, szPtr, d) && Tight(reg, szPtr, d)
    ensures d.align == 1
    ensures forall k :: 0 <= k < |d.members| ==> PastEnd(reg, szPtr, d.members[k]) <= d.size
    ensures exists k :: 0 <= k < |d.members| && PastEnd(reg, szPtr, d.members[k]) == d.size
    ensures !d.isUnion ==> PastEnd(reg, szPtr, d.members[|d.members| - 1]) == d.size
  {
    hide PastEnd, IsAlignment;
    forall k | 0 <= k < |d.members| ensures PastEnd(reg, szPtr, d.members[k]) <= d.size {
      assert !d.isUnion ==> MemberFollows(reg, szPtr, d, k);
    }
  }

  /** Under the default the alignment is the largest one among the members. */
  lemma DefaultAlignIsLargest(reg: Registry, cfg: Config, name: string, isUnion: bool, ms: seq<Member>)
    requires Definable(reg, cfg, ms) && cfg.pack == DEFAULT_ALIGNMENT
    ensures var d := NewDef(reg, cfg, true, name, isUnion, ms);
            && (forall k :: 0 <= k < |ms| ==> TypeAlign(reg, ms[k].ty) <= d.align)
            && (exists k :: 0 <= k < |ms| && TypeAlign(reg, ms[k].ty) == d.align)
  {
    hide RoundUp, TotalUpTo, LeafNum, OffsetOf, MaxAlign;
    AlignIsPacked(reg, cfg, name, isUnion, ms);
    SameTypes(reg, cfg, true, name, isUnion, ms);
    var d := NewDef(reg, cfg, true, name, isUnion, ms);
    assert forall k :: 0 <= k < |ms| ==> d.members[k].ty == ms[k].ty && IsAlignment(TypeAlign(reg, ms[k].ty));
    if d.align == cfg.pack {
      LargestIsReached(reg, ms, |ms|);
    }
  }

  lemma LargestIsReached(reg: Registry, ms: seq<Member>, n: nat)
    requires 0 < n <= |ms| && KnownUpTo(reg, ms, n)
    requires DEFAULT_ALIGNMENT <= MaxAlign(reg, ms, n)
    ensures exists k :: 0 <= k < n && TypeAlign(reg, ms[k].ty) == DEFAULT_ALIGNMENT
  {
    var k :| 0 <= k < n && TypeAlign(reg, ms[k].ty) == MaxAlign(reg, ms, n);
  }
}
