/** The `Struct`, `Union` and `Pack` commands, and the registry that every run of them
    builds: each definition is computed from earlier ones, under the pack value that was in
    force when it was made, and stays as it is. */
module RivlTypedef {
  import opened Basics
  import opened RivlRows
  import opened RivlLayout

  ghost predicate DistinctNames(ms: seq<Member>) {
    forall i, j :: 0 <= i < j < |ms| ==> ms[i].name != ms[j].name
  }

  /** Definition i is what the command computes from the definitions before it under the
      given setting. */
  ghost predicate BuiltWith(reg: Registry, cfg: Config, i: nat)
    requires i < |reg|
  {
    var d := reg[i];
    && Definable(reg[..i], cfg, d.members) && DistinctNames(d.members)
    && Find(reg[..i], d.name).None?
    && d == NewDef(reg[..i], cfg, true, d.name, d.isUnion, d.members)
  }

  /** Some pack value was in force when definition i was made. */
  ghost predicate Built(reg: Registry, szPtr: nat, i: nat)
    requires i < |reg|
  {
    BuiltWith(reg, Config(DEFAULT_ALIGNMENT, szPtr), i) || BuiltWith(reg, Config(1, szPtr), i)
  }

  ghost function SettingOf(reg: Registry, szPtr: nat, i: nat): (cfg: Config)
    requires i < |reg| && Built(reg, szPtr, i)
    ensures ProperConfig(cfg) && cfg.szPtr == szPtr && BuiltWith(reg, cfg, i)
  {
    if BuiltWith(reg, Config(DEFAULT_ALIGNMENT, szPtr), i) then Config(DEFAULT_ALIGNMENT, szPtr) else Config(1, szPtr)
  }

  ghost predicate WellFormed(reg: Registry, szPtr: nat) {
    forall i :: 0 <= i < |reg| ==> Built(reg, szPtr, i)
  }

  /** Names this long, or longer, are refused. */
  const MAX_TYPENAME_LEN: nat := 64

  /** Filling in the offsets changes nothing that a layout depends on. */
  lemma {:induction false} SameShape(reg: Registry, ms: seq<Member>, ms': seq<Member>, k: nat)
    requires |ms| == |ms'| && k <= |ms| && AllKnown(reg, ms) && AllKnown(reg, ms')
    requires forall i :: 0 <= i < |ms| ==> ms'[i] == ms[i].(offset := ms'[i].offset)
    ensures LeafNum(reg, ms, k) == LeafNum(reg, ms', k) && MaxAlign(reg, ms, k) == MaxAlign(reg, ms', k)
  {
    hide LeafStep, IsAlignment;
    if k > 0 {
      SameShape(reg, ms, ms', k - 1);
    }
  }

  /** Laying out the members of a definition again changes nothing. */
  lemma NewDefAgain(reg: Registry, cfg: Config, name: string, isUnion: bool, ms: seq<Member>)
    requires Definable(reg, cfg, ms)
    ensures var d := NewDef(reg, cfg, true, name, isUnion, ms);
            Definable(reg, cfg, d.members) && d == NewDef(reg, cfg, true, name, isUnion, d.members)
  {
    hide LeafStep, RoundUp, Extent, Total, OffsetOf, LeafNum, MaxAlign;
    var d := NewDef(reg, cfg, true, name, isUnion, ms);
    SameTypes(reg, cfg, true, name, isUnion, ms);
    SameShape(reg, ms, d.members, |ms|);
    assert NewDef(reg, cfg, true, name, isUnion, d.members).members == d.members;
  }

  lemma {:induction false} NewDefIsBuilt(reg: Registry, cfg: Config, name: string, isUnion: bool, ms: seq<Member>)
    requires Definable(reg, cfg, ms) && DistinctNames(ms) && Find(reg, name).None? && WellFormed(reg, cfg.szPtr)
    ensures WellFormed(reg + [NewDef(reg, cfg, true, name, isUnion, ms)], cfg.szPtr)
  {
    NewDefAgain(reg, cfg, name, isUnion, ms);
    var d := NewDef(reg, cfg, true, name, isUnion, ms);
    assert d.name == name && d.isUnion == isUnion && DistinctNames(d.members);
    hide NewDef;
    var reg' := reg + [d];
    forall i | 0 <= i < |reg'|
      ensures Built(reg', cfg.szPtr, i)
    {
      if i < |reg| {
        assert reg'[..i] == reg[..i] && reg'[i] == reg[i];
        assert Built(reg, cfg.szPtr, i);
      } else {
        assert reg'[..i] == reg;
        assert BuiltWith(reg', cfg, i) && cfg == Config(cfg.pack, cfg.szPtr);
      }
    }
  }

  datatype Outcome = Ok | Redefined | Error

  /** The interpreter's registry. `internalTypes` are the names of the basic types. */
  class Rivl {
    const szPtr: nat
    const internalTypes: seq<string>
    var pack: nat
    var types: Registry

    constructor (szPtr: nat, internalTypes: seq<string>)
      ensures Valid() && this.szPtr == szPtr && this.internalTypes == internalTypes
      ensures pack == DEFAULT_ALIGNMENT && types == []
    {
      this.szPtr, this.internalTypes, pack, types := szPtr, internalTypes, DEFAULT_ALIGNMENT, [];
    }

    ghost predicate Valid()
      reads this
    {
      ProperConfig(Setting()) && WellFormed(types, szPtr)
    }

    /** What the next definition is made under. */
    function Setting(): Config
      reads this
    {
      Config(pack, szPtr)
    }

    /** The Pack command: without a value it goes back to the default, and of the values
        only 1 is taken. Types that are there keep their layout. */
    method Pack(value: Option<int>)
      requires Valid()
      modifies `pack
      ensures Valid() && types == old(types)
      ensures pack == if value.None? then DEFAULT_ALIGNMENT else if value == Some(1) then 1 else old(pack)
    {
      if value.None? {
        pack := DEFAULT_ALIGNMENT;
      } else if value.value == 1 {
        pack := 1;
      }
    }

    method HasDuplicate(pairs: array<Member>, num: nat) returns (found: bool)
      requires num <= pairs.Length
      ensures found <==> !DistinctNames(pairs[..num])
    {
      var i := 0;
      while i < num
        invariant 0 <= i <= num
        invariant forall a, b :: 0 <= a < i && a < b < num ==> pairs[a].name != pairs[b].name
      {
        var j := i + 1;
        while j < num
          invariant i < j <= num
          invariant forall b :: i < b < j ==> pairs[i].name != pairs[b].name
        {
          if pairs[i].name == pairs[j].name {
            assert pairs[..num][i].name == pairs[..num][j].name;
            return true;
          }
          j := j + 1;
        }
        i := i + 1;
      }
      return false;
    }

    /** The first loop over the pairs. */
    method CountAndAlign(pairs: array<Member>, num: nat) returns (ok: bool, leaves: nat, align: nat)
      requires Valid() && num <= pairs.Length
      ensures ok <==> forall k :: 0 <= k < num ==> Known(types, pairs[k].ty)
      ensures ok ==> AllKnown(types, pairs[..num])
                     && leaves == LeafNum(types, pairs[..num], num) && align == MaxAlign(types, pairs[..num], num)
    {
      hide LeafStep, WellFormed, TypeAlign, TypeLeafNum, IsAlignment, Find;
      leaves, align := 0, 0;
      ghost var ms := pairs[..num];
      var k := 0;
      while k < num
        invariant 0 <= k <= num
        invariant KnownUpTo(types, ms, k)
        invariant leaves == LeafNum(types, ms, k) && align == MaxAlign(types, ms, k)
      {
        var m := pairs[k];
        assert m == ms[k];
        if !Known(types, m.ty) {
          return false, leaves, align;
        }
        KnownIsAligned(types, szPtr, m.ty);
        leaves := LeafStep(leaves, TypeLeafNum(types, m.ty), Count(m));
        align := Max(align, TypeAlign(types, m.ty));
        k := k + 1;
      }
      return true, leaves, align;
    }

    /** The second loop: writes the offsets into the pairs and returns the size so far. */
    method SetOffsets(pairs: array<Member>, num: nat, isUnion: bool) returns (total: nat)
      requires Valid() && num <= pairs.Length && AllKnown(types, pairs[..num])
      modifies pairs
      ensures var rows := Rows(types, szPtr, old(pairs[..num]));
              && total == Total(true, isUnion, rows)
              && (forall k :: 0 <= k < num ==> pairs[k] == old(pairs[k]).(offset := OffsetOf(true, isUnion, rows, k)))
    {
      hide RoundUp, Clip, Extent, TotalUpTo, OffsetOf, Known, TypeAlign, IsAlignment, WellFormed;
      ghost var ms := pairs[..num];
      ghost var rows := Rows(types, szPtr, ms);
      total := 0;
      TotalStarts(isUnion, rows);
      var k := 0;
      while k < num
        invariant 0 <= k <= num
        invariant total == TotalUpTo(true, isUnion, rows, k)
        invariant forall i :: 0 <= i < k ==> pairs[i] == ms[i].(offset := OffsetOf(true, isUnion, rows, i))
        invariant forall i :: k <= i < num ==> pairs[i] == ms[i]
      {
        var m := pairs[k];
        assert rows[k] == Row(TypeAlign(types, m.ty), Extent(types, szPtr, m));
        TotalStep(isUnion, rows, k);
        var size := Clip(true, Extent(types, szPtr, m));
        if isUnion {
          total := Max(total, size);
          pairs[k] := m.(offset := 0);
        } else {
          total := RoundUp(true, total, TypeAlign(types, m.ty));
          pairs[k] := m.(offset := total);
          total := Clip(true, total + size);
        }
        k := k + 1;
      }
    }

    /** The command itself. `rpcOk` is the answer of the remote side, which comes
        after the type has been added. */
    method TypeDef(isUnion: bool, name: string, pairs: array<Member>, num: nat, rpcOk: bool)
      returns (outcome: Outcome)
      requires Valid() && num <= pairs.Length
      modifies `types, pairs
      ensures Valid()
      ensures var ms := old(pairs[..num]);
              if |name| >= MAX_TYPENAME_LEN then outcome == Error && types == old(types)
              else if name in internalTypes || Find(old(types), name).Some? then
                outcome == Redefined && types == old(types)
              else if ms == [] || !DistinctNames(ms) || !(forall k :: 0 <= k < num ==> Known(old(types), ms[k].ty)) then
                outcome == Error && types == old(types)
              else
                && Definable(old(types), Setting(), ms)
                && types == old(types) + [NewDef(old(types), Setting(), true, name, isUnion, ms)]
                && outcome == (if rpcOk then Ok else Error)
                && AllKnown(old(types), types[|types| - 1].members)
                && Packed(old(types), pack, types[|types| - 1])
    {
      hide LeafStep, RoundUp, Extent, TotalUpTo, OffsetOf, LeafNum, MaxAlign, WellFormed, DistinctNames, TypeAlign;
      if |name| >= MAX_TYPENAME_LEN {
        return Error;
      }
      if name in internalTypes || Find(types, name).Some? {
        return Redefined;
      }
      if num == 0 {
        return Error;
      }
      ghost var ms := pairs[..num];
      var duplicate := HasDuplicate(pairs, num);
      if duplicate {
        return Error;
      }
      var ok, leaves, align := CountAndAlign(pairs, num);
      if !ok {
        return Error;
      }
      align := Min(align, pack);
      var total := SetOffsets(pairs, num, isUnion);
      var size := RoundUp(true, total, align);
      var d := Def(name, isUnion, pairs[..num], size, align, leaves);
      assert d.members == NewDef(types, Setting(), true, name, isUnion, ms).members;
      NewDefIsBuilt(types, Setting(), name, isUnion, ms);
      AlignIsPacked(types, Setting(), name, isUnion, ms);
      types := types + [d];
      return if rpcOk then Ok else Error;
    }
  }

  lemma KnownIsAligned(reg: Registry, szPtr: nat, ty: TypeName)
    requires WellFormed(reg, szPtr) && Known(reg, ty)
    ensures IsAlignment(TypeAlign(reg, ty))
  {
    if ty.Named? {
      assert Built(reg, szPtr, Find(reg, ty.name).value);
    }
  }

  lemma TotalStarts(isUnion: bool, rows: seq<Row>)
    requires Proper(rows)
    ensures TotalUpTo(true, isUnion, rows, 0) == 0
  {
  }

  lemma TotalStep(isUnion: bool, rows: seq<Row>, k: nat)
    requires Proper(rows) && k < |rows|
    ensures var total := TotalUpTo(true, isUnion, rows, k);
            var size := Clip(true, rows[k].extent);
            && OffsetOf(true, isUnion, rows, k) == (if isUnion then 0 else RoundUp(true, total, rows[k].align))
            && TotalUpTo(true, isUnion, rows, k + 1) ==
                 if isUnion then Max(total, size) else Clip(true, OffsetOf(true, isUnion, rows, k) + size)
  {
  }
}
