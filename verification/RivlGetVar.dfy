/** Reading a value back: `GetVar` walks the type, cuts the digits of every leaf out
    of the buffer that the remote side sends, and sets a variable for it. */
module RivlGetVar {
  import opened Basics
  import opened RivlRows
  import opened RivlLayout
  import opened RivlTypedef
  import opened RivlWalk
  import opened RivlNames
  import opened RivlPlace
  import opened RivlValue

  // ----- The conversion routines -----

  lemma ParseOneMore(s: string, i: nat)
    requires i < |s|
    ensures Parse(s[..i + 1]) == Parse(s[..i]) * 16 + DigitValue(s[i])
  {
    assert s[..i + 1][..i] == s[..i];
  }

  lemma ShiftByte32(a: nat, b: nat)
    ensures (a % 0x1_0000_0000 * 0x100 + b) % 0x1_0000_0000 == (a * 0x100 + b) % 0x1_0000_0000
  {
    var q := a / 0x1_0000_0000;
    assert a * 0x100 + b == (a % 0x1_0000_0000 * 0x100 + b) + q * 0x100 * 0x1_0000_0000;
  }

  lemma ShiftDigit64(a: nat, b: nat)
    ensures (a % 0x1_0000_0000_0000_0000 * 0x10 + b) % 0x1_0000_0000_0000_0000
            == (a * 0x10 + b) % 0x1_0000_0000_0000_0000
  {
    var q := a / 0x1_0000_0000_0000_0000;
    assert a * 0x10 + b == (a % 0x1_0000_0000_0000_0000 * 0x10 + b) + q * 0x10 * 0x1_0000_0000_0000_0000;
  }

  method ConvertINT32(src: string) returns (v: nat)
    requires |src| == 8
    ensures IntVal(v) == Decode(Int32, src)
  {
    var value := 0;
    var index := 0;
    while index < 4
      invariant 0 <= index <= 4
      invariant value == Parse(src[..2 * index]) % 0x1_0000_0000
    {
      ParseOneMore(src, 2 * index);
      ParseOneMore(src, 2 * index + 1);
      ShiftByte32(Parse(src[..2 * index]), DigitValue(src[2 * index]) * 0x10 + DigitValue(src[2 * index + 1]));
      value := (value * 0x100 + (DigitValue(src[2 * index]) * 0x10 + DigitValue(src[2 * index + 1])))
               % 0x1_0000_0000;
      index := index + 1;
    }
    assert src[..8] == src;
    v := Swap32(value);
  }

  method ConvertINT64(src: string) returns (v: nat)
    requires |src| == 16
    ensures IntVal(v) == Decode(Int64, src)
  {
    var value := 0;
    var index := 0;
    while index < 16
      invariant 0 <= index <= 16
      invariant value == Parse(src[..index]) % 0x1_0000_0000_0000_0000
    {
      ParseOneMore(src, index);
      ShiftDigit64(Parse(src[..index]), DigitValue(src[index]));
      value := (value * 0x10 + DigitValue(src[index])) % 0x1_0000_0000_0000_0000;
      index := index + 1;
    }
    assert src[..16] == src;
    Powers();
    v := Swap64(value);
  }

  lemma {:induction false} ParseTwo(s: string)
    requires |s| == 2
    ensures Parse(s) == DigitValue(s[0]) * 0x10 + DigitValue(s[1])
  {
    ParseOneMore(s, 0);
    ParseOneMore(s, 1);
    assert s[..2] == s;
  }

  lemma {:induction false} ParseFour(s: string)
    requires |s| == 4
    ensures Parse(s) == DigitValue(s[0]) * 0x1000 + DigitValue(s[1]) * 0x100
                        + DigitValue(s[2]) * 0x10 + DigitValue(s[3])
  {
    ParseOneMore(s, 0);
    ParseOneMore(s, 1);
    ParseOneMore(s, 2);
    ParseOneMore(s, 3);
    assert s[..4] == s;
  }

  /** One conversion, as the type's table entry chooses it. */
  method Convert(k: Kind, src: string) returns (v: Value)
    requires |src| == 2 * KindSize(k)
    ensures v == Decode(k, src)
  {
    match k {
      case Bool =>
        ParseTwo(src);
        v := BoolVal((DigitValue(src[0]) * 0x10 + DigitValue(src[1])) % 0x100 != 0);
      case Int8 =>
        ParseTwo(src);
        v := IntVal((DigitValue(src[0]) * 0x10 + DigitValue(src[1])) % 0x100);
      case Int16 =>
        ParseFour(src);
        v := IntVal(Swap16((DigitValue(src[0]) * 0x1000 + DigitValue(src[1]) * 0x100
                            + DigitValue(src[2]) * 0x10 + DigitValue(src[3])) % 0x1_0000));
      case Int32 =>
        var n := ConvertINT32(src);
        v := IntVal(n);
      case Int64 =>
        var n := ConvertINT64(src);
        v := IntVal(n);
    }
  }

  // ----- The encoding of a list of items -----

  function EncodeAll(k: Kind, items: seq<Value>): string
    requires forall v <- items :: InRange(k, v)
  {
    if items == [] then ""
    else
      var n := |items| - 1;
      assert forall v <- items[..n] :: v in items;
      assert items[n] in items;
      EncodeAll(k, items[..n]) + Encode(k, items[n])
  }

  /** Where the digits of item i of a list start. */
  function ItemStart(k: Kind, i: nat): nat { 2 * (KindSize(k) * i) }

  /** The digits of v stand at the place of item i. */
  ghost predicate HoldsItem(k: Kind, s: string, i: nat, v: Value) {
    && InRange(k, v) && ItemStart(k, i) + 2 * KindSize(k) <= |s|
    && s[ItemStart(k, i)..ItemStart(k, i) + 2 * KindSize(k)] == Encode(k, v)
  }

  ghost predicate HoldsItems(k: Kind, s: string, items: seq<Value>) {
    |s| == ItemStart(k, |items|) && forall i: nat :: i < |items| ==> HoldsItem(k, s, i, items[i])
  }

  lemma ItemStarts(k: Kind, i: nat, n: nat)
    requires i < n
    ensures ItemStart(k, 0) == 0 && ItemStart(k, n) == ItemStart(k, n - 1) + 2 * KindSize(k)
    ensures ItemStart(k, i) + 2 * KindSize(k) <= ItemStart(k, n)
  {
  }

  lemma HoldsOneMore(k: Kind, s: string, more: string, i: nat, v: Value)
    requires HoldsItem(k, s, i, v)
    ensures HoldsItem(k, s + more, i, v)
  {
    hide Encode, InRange, KindSize, ItemStart;
    var at, end := ItemStart(k, i), ItemStart(k, i) + 2 * KindSize(k);
    assert (s + more)[at..end] == s[at..end];
  }

  lemma HoldsLast(k: Kind, s: string, i: nat, v: Value)
    requires InRange(k, v) && |s| == ItemStart(k, i)
    ensures HoldsItem(k, s + Encode(k, v), i, v)
  {
    hide Encode, InRange, KindSize, ItemStart;
  }

  /** Every item stands behind the items before it. */
  lemma {:induction false} EncodedInOrder(k: Kind, items: seq<Value>)
    requires forall v <- items :: InRange(k, v)
    ensures HoldsItems(k, EncodeAll(k, items), items)
  {
    hide Encode, InRange, KindSize, ItemStart, HoldsItem;
    ItemStarts(k, 0, |items| + 1);
    if items != [] {
      var n := |items| - 1;
      ItemStarts(k, 0, n + 1);
      assert forall v <- items[..n] :: v in items;
      assert items[n] in items;
      EncodedInOrder(k, items[..n]);
      HoldsLast(k, EncodeAll(k, items[..n]), n, items[n]);
      forall i: nat | i < n ensures HoldsItem(k, EncodeAll(k, items), i, items[i]) {
        HoldsOneMore(k, EncodeAll(k, items[..n]), Encode(k, items[n]), i, items[..n][i]);
      }
    }
  }

  lemma ItemIsRead(k: Kind, s: string, i: nat, v: Value, l: Leaf)
    requires HoldsItem(k, s, i, v) && l.kind == k && l.off == KindSize(k) * i
    ensures 2 * (l.off + KindSize(l.kind)) <= |s| && Decode(l.kind, Digits(s, l)) == v
  {
    hide Encode, Decode, InRange;
    ValueRoundTrip(k, v);
  }

  /** An encoded list is the memory of an array of that many elements. */
  lemma ListRoundTrip(reg: Registry, k: Kind, s: string, items: seq<Value>, name: string)
    requires Ranked(reg) && HoldsItems(k, s, items)
    ensures Covers(s, Walk(reg, Basic(k), true, |items|, name, 0))
    ensures Decoded(s, Walk(reg, Basic(k), true, |items|, name, 0))
            == seq(|items|, i requires 0 <= i < |items| => (name + "(" + Decimal(i) + ")", items[i]))
  {
    hide Decode, Decimal, WalkElements, WalkOne, HoldsItem, KindSize, Digits;
    var ls := Walk(reg, Basic(k), true, |items|, name, 0);
    ElementsOfBasic(reg, k, |items|, name, 0);
    forall i: nat | i < |items|
      ensures 2 * (ls[i].off + KindSize(ls[i].kind)) <= |s| && Decode(ls[i].kind, Digits(s, ls[i])) == items[i]
    {
      ItemIsRead(k, s, i, items[i], ls[i]);
    }
  }

  /** The loop of the validation routines: an item out of range is refused, and so
      are more items than the variable has elements. */
  method Validate(k: Kind, items: seq<Value>, num: nat) returns (r: Option<string>)
    ensures r.Some? <==> |items| <= num && forall v <- items :: InRange(k, v)
    ensures r.Some? ==> r.value == EncodeAll(k, items)
    ensures r.Some? ==> HoldsItems(k, r.value, items)
  {
    hide Encode, InRange, HoldsItems;
    var stripValue := "";
    var i := 0;
    while i < |items|
      invariant 0 <= i <= |items|
      invariant forall v <- items[..i] :: InRange(k, v)
      invariant stripValue == EncodeAll(k, items[..i])
    {
      if !InRange(k, items[i]) {
        return None;
      }
      assert items[..i + 1][..i] == items[..i];
      stripValue := stripValue + Encode(k, items[i]);
      i := i + 1;
    }
    assert items[..i] == items;
    if |items| > num {
      return None;
    }
    EncodedInOrder(k, items);
    return Some(stripValue);
  }

  // ----- The walk, setting variables -----

  /** Every leaf lies inside the buffer. */
  ghost predicate Covers(buf: string, ls: seq<Leaf>) {
    forall i :: 0 <= i < |ls| ==> 2 * (ls[i].off + KindSize(ls[i].kind)) <= |buf|
  }

  function Digits(buf: string, l: Leaf): (s: string)
    requires 2 * (l.off + KindSize(l.kind)) <= |buf|
    ensures |s| == 2 * KindSize(l.kind)
  {
    buf[2 * l.off..2 * (l.off + KindSize(l.kind))]
  }

  ghost function Decoded(buf: string, ls: seq<Leaf>): seq<(string, Value)>
    requires Covers(buf, ls)
  {
    seq(|ls|, i requires 0 <= i < |ls| => (ls[i].name, Decode(ls[i].kind, Digits(buf, ls[i]))))
  }

  lemma NothingDecoded(buf: string)
    ensures Covers(buf, []) && Decoded(buf, []) == []
  {
  }

  lemma DecodedJoin(buf: string, xs: seq<Leaf>, ys: seq<Leaf>)
    requires Covers(buf, xs + ys)
    ensures Covers(buf, xs) && Covers(buf, ys)
    ensures Decoded(buf, xs + ys) == Decoded(buf, xs) + Decoded(buf, ys)
  {
    assert forall i :: 0 <= i < |xs| ==> xs[i] == (xs + ys)[i];
    assert forall i :: 0 <= i < |ys| ==> ys[i] == (xs + ys)[|xs| + i];
  }

  /** What a series of assignments leaves behind. */
  function Replay(sets: seq<(string, Value)>): map<string, Value> {
    if sets == [] then map[]
    else
      var n := |sets| - 1;
      Replay(sets[..n])[sets[n].0 := sets[n].1]
  }

  /** The interpreter's variables; `sets` is every assignment so far, in order. */
  class Interp {
    const reg: Registry
    var vars: map<string, Value>
    ghost var sets: seq<(string, Value)>

    ghost predicate Valid()
      reads this
    {
      vars == Replay(sets)
    }

    constructor (reg: Registry)
      ensures Valid() && this.reg == reg && sets == []
    {
      this.reg, vars, sets := reg, map[], [];
    }

    method SetVar(name: string, v: Value)
      requires Valid()
      modifies this
      ensures Valid() && sets == old(sets) + [(name, v)]
    {
      vars := vars[name := v];
      sets := sets + [(name, v)];
      assert sets[..|sets| - 1] == old(sets);
    }

    method ParseByIType(
      buf: string, off: nat, kind: Kind, isArray: bool, indexed: bool, num: nat, name: string)
      requires Valid() && Ranked(reg) && Covers(buf, Walk(reg, Basic(kind), isArray && !indexed, num, name, off))
      modifies this
      ensures Valid() && sets == old(sets) + Decoded(buf, Walk(reg, Basic(kind), isArray && !indexed, num, name, off))
    {
      hide Replay, Decode, ElementOff, Dotted, Indexed;
      if !isArray || indexed {
        var l := Leaf(name, off, kind);
        assert Walk(reg, Basic(kind), false, num, name, off) == [l] && [l][0] == l;
        var v := Convert(kind, Digits(buf, l));
        SetVar(name, v);
      } else {
        var i := 0;
        while i < num
          invariant 0 <= i <= num
          invariant Valid() && Covers(buf, WalkElements(reg, Basic(kind), i, name, off))
          invariant sets == old(sets) + Decoded(buf, WalkElements(reg, Basic(kind), i, name, off))
        {
          ElementsCovered(buf, reg, Basic(kind), i + 1, num, name, off);
          var l := Leaf(Indexed(name, i), ElementOff(reg, Basic(kind), off, i), kind);
          assert WalkElements(reg, Basic(kind), i + 1, name, off)
                 == WalkElements(reg, Basic(kind), i, name, off) + [l];
          DecodedJoin(buf, WalkElements(reg, Basic(kind), i, name, off), [l]);
          assert [l][0] == l;
          var v := Convert(kind, Digits(buf, l));
          SetVar(l.name, v);
          i := i + 1;
        }
      }
    }

    method ParseByEType(
      buf: string, off: nat, i: nat, isArray: bool, indexed: bool, num: nat, name: string)
      requires Valid() && Ranked(reg) && i < |reg| && Find(reg, reg[i].name) == Some(i)
      requires Covers(buf, Walk(reg, Named(reg[i].name), isArray && !indexed, num, name, off))
      modifies this
      ensures Valid()
      ensures sets == old(sets) + Decoded(buf, Walk(reg, Named(reg[i].name), isArray && !indexed, num, name, off))
      decreases i, isArray && !indexed
    {
      hide Covers, Decoded, Replay, ElementOff, Dotted, Indexed, Ranked, Walk, WalkOne, WalkMembers, WalkElements;
      NothingDecoded(buf);
      assert sets + [] == sets;
      var d := reg[i];
      ghost var ty := Named(d.name);
      WalkIsParts(reg, i, isArray && !indexed, num, name, off);
      if !isArray || indexed {
        var k := 0;
        while k < |d.members|
          invariant 0 <= k <= |d.members|
          invariant Valid() && Covers(buf, WalkMembers(reg, i, k, name, off))
          invariant sets == old(sets) + Decoded(buf, WalkMembers(reg, i, k, name, off))
        {
          var m := d.members[k];
          MemberStep(reg, i, k, name, off);
          MembersCovered(buf, reg, i, k + 1, |d.members|, name, off);
          DecodedJoin(buf, WalkMembers(reg, i, k, name, off),
                      Walk(reg, m.ty, m.isArray, m.arrayNum, Dotted(name, m.name), off + m.offset));
          match m.ty {
            case Basic(kind) =>
              ParseByIType(buf, off + m.offset, kind, m.isArray, false, m.arrayNum, Dotted(name, m.name));
            case Named(n) =>
              var j := Find(reg, n).value;
              ParseByEType(buf, off + m.offset, j, m.isArray, false, m.arrayNum, Dotted(name, m.name));
          }
          k := k + 1;
        }
      } else {
        var j := 0;
        while j < num
          invariant 0 <= j <= num
          invariant Valid() && Covers(buf, WalkElements(reg, ty, j, name, off))
          invariant sets == old(sets) + Decoded(buf, WalkElements(reg, ty, j, name, off))
        {
          WalkElementStep(reg, ty, j, name, off);
          ElementsCovered(buf, reg, ty, j + 1, num, name, off);
          DecodedJoin(buf, WalkElements(reg, ty, j, name, off),
                      WalkOne(reg, ty, Indexed(name, j), ElementOff(reg, ty, off, j)));
          ParseByEType(buf, ElementOff(reg, Named(d.name), off, j), i, isArray, true, 1, Indexed(name, j));
          j := j + 1;
        }
      }
    }
  }

  /** The walk over a variable of a defined type starts with nothing and goes through its
      members or its elements. */
  lemma WalkIsParts(reg: Registry, i: nat, isArray: bool, num: nat, name: string, off: nat)
    requires Ranked(reg) && i < |reg| && Find(reg, reg[i].name) == Some(i)
    ensures var ty := Named(reg[i].name);
            && WalkMembers(reg, i, 0, name, off) == [] && WalkElements(reg, ty, 0, name, off) == []
            && WalkOne(reg, ty, name, off) == WalkMembers(reg, i, |reg[i].members|, name, off)
            && Walk(reg, ty, isArray, num, name, off) ==
                 (if isArray then WalkElements(reg, ty, num, name, off) else WalkOne(reg, ty, name, off))
  {
  }

  lemma MemberStep(reg: Registry, i: nat, k: nat, name: string, off: nat)
    requires Ranked(reg) && i < |reg| && k < |reg[i].members|
    ensures var m := reg[i].members[k];
            && Known(reg, m.ty) && Rank(reg, m.ty) <= i
            && WalkMembers(reg, i, k + 1, name, off) ==
                 WalkMembers(reg, i, k, name, off)
                 + Walk(reg, m.ty, m.isArray, m.arrayNum, Dotted(name, m.name), off + m.offset)
  {
  }

  lemma WalkElementStep(reg: Registry, ty: TypeName, j: nat, name: string, off: nat)
    requires Ranked(reg) && Known(reg, ty)
    ensures WalkElements(reg, ty, j + 1, name, off) ==
            WalkElements(reg, ty, j, name, off) + WalkOne(reg, ty, Indexed(name, j), ElementOff(reg, ty, off, j))
    ensures Walk(reg, ty, false, 1, Indexed(name, j), ElementOff(reg, ty, off, j)) ==
            WalkOne(reg, ty, Indexed(name, j), ElementOff(reg, ty, off, j))
  {
  }

  lemma {:induction false} MembersCovered(
    buf: string, reg: Registry, i: nat, k: nat, n: nat, name: string, off: nat)
    requires Ranked(reg) && i < |reg| && k <= n <= |reg[i].members|
    requires Covers(buf, WalkMembers(reg, i, n, name, off))
    ensures Covers(buf, WalkMembers(reg, i, k, name, off))
    decreases n
  {
    if k < n {
      var m := reg[i].members[n - 1];
      DecodedJoin(buf, WalkMembers(reg, i, n - 1, name, off),
                  Walk(reg, m.ty, m.isArray, m.arrayNum, Dotted(name, m.name), off + m.offset));
      MembersCovered(buf, reg, i, k, n - 1, name, off);
    }
  }

  lemma {:induction false} ElementsCovered(
    buf: string, reg: Registry, ty: TypeName, i: nat, n: nat, name: string, off: nat)
    requires Ranked(reg) && Known(reg, ty) && i <= n && Covers(buf, WalkElements(reg, ty, n, name, off))
    ensures Covers(buf, WalkElements(reg, ty, i, name, off))
    decreases n
  {
    if i < n {
      DecodedJoin(buf, WalkElements(reg, ty, n - 1, name, off),
                  WalkOne(reg, ty, Indexed(name, n - 1), ElementOff(reg, ty, off, n - 1)));
      ElementsCovered(buf, reg, ty, i, n - 1, name, off);
    }
  }

  // ----- The round trip of a whole value -----

  /** Puts the digits of v at the place of leaf l. */
  function Place(buf: string, l: Leaf, v: Value): (r: string)
    requires InRange(l.kind, v) && 2 * (l.off + KindSize(l.kind)) <= |buf|
    ensures |r| == |buf|
  {
    buf[..2 * l.off] + Encode(l.kind, v) + buf[2 * (l.off + KindSize(l.kind))..]
  }

  ghost predicate Fitting(ls: seq<Leaf>, vs: seq<Value>) {
    |ls| == |vs| && forall i :: 0 <= i < |ls| ==> InRange(ls[i].kind, vs[i])
  }

  /** The memory of the value: `pad` with the digits of every leaf put in its place. */
  function Filled(pad: string, ls: seq<Leaf>, vs: seq<Value>): (r: string)
    requires Fitting(ls, vs) && Covers(pad, ls)
    ensures |r| == |pad|
  {
    if ls == [] then pad
    else
      var n := |ls| - 1;
      Place(Filled(pad, ls[..n], vs[..n]), ls[n], vs[n])
  }

  lemma PlacedIsRead(buf: string, l: Leaf, v: Value)
    requires InRange(l.kind, v) && 2 * (l.off + KindSize(l.kind)) <= |buf|
    ensures Digits(Place(buf, l, v), l) == Encode(l.kind, v)
  {
  }

  lemma PlacedKeepsOthers(buf: string, l: Leaf, v: Value, other: Leaf)
    requires InRange(l.kind, v) && 2 * (l.off + KindSize(l.kind)) <= |buf|
    requires other.off + KindSize(other.kind) <= l.off
    ensures Digits(Place(buf, l, v), other) == Digits(buf, other)
  {
  }

  lemma {:induction false} FilledIsRead(pad: string, ls: seq<Leaf>, vs: seq<Value>, lo: nat, hi: nat, i: nat)
    requires Fitting(ls, vs) && Covers(pad, ls) && Tiled(ls, lo, hi) && i < |ls|
    ensures Decode(ls[i].kind, Digits(Filled(pad, ls, vs), ls[i])) == vs[i]
    decreases |ls|
  {
    var n := |ls| - 1;
    var before := Filled(pad, ls[..n], vs[..n]);
    if i == n {
      PlacedIsRead(before, ls[n], vs[n]);
      ValueRoundTrip(ls[n].kind, vs[n]);
    } else {
      FilledIsRead(pad, ls[..n], vs[..n], lo, hi, i);
      PlacedKeepsOthers(before, ls[n], vs[n], ls[i]);
    }
  }

  ghost function Assignments(ls: seq<Leaf>, vs: seq<Value>): seq<(string, Value)>
    requires |ls| == |vs|
  {
    seq(|ls|, i requires 0 <= i < |ls| => (ls[i].name, vs[i]))
  }

  /** Every leaf of the memory decodes to its value. */
  lemma {:induction false} MemoryDecodes(ls: seq<Leaf>, size: nat, pad: string, vs: seq<Value>)
    requires Tiled(ls, 0, size) && |pad| == 2 * size && Fitting(ls, vs)
    ensures Covers(pad, ls) && Decoded(Filled(pad, ls, vs), ls) == Assignments(ls, vs)
  {
    assert Covers(pad, ls);
    forall i | 0 <= i < |ls|
      ensures Decode(ls[i].kind, Digits(Filled(pad, ls, vs), ls[i])) == vs[i]
    {
      FilledIsRead(pad, ls, vs, 0, size, i);
    }
  }

  lemma {:induction false} ReplayDistinct(ls: seq<Leaf>, vs: seq<Value>, i: nat)
    requires |ls| == |vs| && NamesDiffer(ls)
    ensures forall x <- Replay(Assignments(ls, vs)) :: exists l <- ls :: l.name == x
    ensures i < |ls| ==> ls[i].name in Replay(Assignments(ls, vs)) && Replay(Assignments(ls, vs))[ls[i].name] == vs[i]
    decreases |ls|
  {
    if ls != [] {
      var n := |ls| - 1;
      var sets := Assignments(ls, vs);
      assert sets[..n] == Assignments(ls[..n], vs[..n]);
      ReplayDistinct(ls[..n], vs[..n], i);
      forall x <- Replay(sets) ensures exists l <- ls :: l.name == x {
        if x == sets[n].0 {
          assert ls[n] in ls;
        } else {
          assert x in Replay(Assignments(ls[..n], vs[..n]));
          var l :| l in ls[..n] && l.name == x;
          assert l in ls;
        }
      }
    }
  }

  /** `GetVar` restores a whole variable, which may be an array: for every struct type that
      the commands can define, without unions and pointers, with layouts that fit in 32
      bits and clean member names, for all leaf values in range and any padding, reading
      the memory back leaves exactly one variable for each leaf, with its value. */
  lemma {:induction false} WholeValueRoundTrip(
    reg: Registry, szPtr: nat, ty: TypeName, isArray: bool, num: nat, name: string, pad: string, vs: seq<Value>)
    requires WellFormed(reg, szPtr) && CleanNames(reg) && Known(reg, ty)
    requires Ranked(reg) && Transportable(reg, szPtr, ty)
    requires |pad| == 2 * VariableSize(reg, ty, isArray, num) && Fitting(Walk(reg, ty, isArray, num, name, 0), vs)
    ensures var ls := Walk(reg, ty, isArray, num, name, 0);
            && Covers(pad, ls)
            && var vars := Replay(Decoded(Filled(pad, ls, vs), ls));
               && vars.Keys == (set l | l in ls :: l.name)
               && forall i :: 0 <= i < |ls| ==> vars[ls[i].name] == vs[i]
  {
    hide Transportable, Walk, VariableSize, Filled, Digits, Tiled, NamesDiffer;
    var ls := Walk(reg, ty, isArray, num, name, 0);
    VariableTiled(reg, szPtr, ty, isArray, num, name);
    WalkNamesAreDistinct(reg, szPtr, ty, isArray, num, name, 0);
    MemoryDecodes(ls, VariableSize(reg, ty, isArray, num), pad, vs);
    ReplayDistinct(ls, vs, 0);
    forall i | 0 <= i < |ls|
      ensures ls[i].name in Replay(Assignments(ls, vs)) && Replay(Assignments(ls, vs))[ls[i].name] == vs[i]
    {
      ReplayDistinct(ls, vs, i);
    }
  }
}
