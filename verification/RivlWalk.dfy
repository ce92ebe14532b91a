/** The walk over the value of a type: one leaf variable for each basic member, at
    every depth of nesting and for every array index. */
module RivlWalk {
  import opened RivlRows
  import opened RivlLayout
  import opened RivlTypedef

  /** A variable that the walk sets: its name, the byte offset it is read from, and
      how it is read. */
  datatype Leaf = Leaf(name: string, off: nat, kind: Kind)

  function Digit(d: nat): char
    requires d < 10
  {
    ['0', '1', '2', '3', '4', '5', '6', '7', '8', '9'][d]
  }

  function Decimal(n: nat): (s: string)
    ensures s != []
  {
    if n < 10 then [Digit(n)] else Decimal(n / 10) + [Digit(n % 10)]
  }

  /** The number that decimal digits write, by their character codes. */
  function ValueOf(s: string): int {
    if s == "" then 0 else ValueOf(s[..|s| - 1]) * 10 + (s[|s| - 1] as int - '0' as int)
  }

  /** s writes n in decimal digits, without a leading zero. */
  predicate Numeral(s: string, n: nat) {
    && s != "" && (|s| > 1 ==> s[0] != '0') && (forall i: nat :: i < |s| ==> '0' <= s[i] <= '9')
    && ValueOf(s) == n
  }

  lemma DigitIsNumeral(d: nat)
    requires d < 10
    ensures '0' <= Digit(d) <= '9' && Digit(d) as int - '0' as int == d
    ensures Numeral([Digit(d)], d)
  {
    assert [Digit(d)][..0] == "";
  }

  lemma {:induction false} DecimalIsNumeral(n: nat)
    ensures Numeral(Decimal(n), n) && (n > 0 ==> Decimal(n)[0] != '0')
  {
    hide Digit;
    if n < 10 {
      DigitIsNumeral(n);
    } else {
      DecimalIsNumeral(n / 10);
      DigitIsNumeral(n % 10);
      var s := Decimal(n);
      assert s[..|s| - 1] == Decimal(n / 10);
    }
  }

  lemma {:induction false} NumeralIsPositive(s: string)
    requires s != "" && s[0] != '0' && forall i: nat :: i < |s| ==> '0' <= s[i] <= '9'
    ensures ValueOf(s) > 0
  {
    if |s| == 1 {
      assert s[..0] == "";
    } else {
      NumeralIsPositive(s[..|s| - 1]);
    }
  }

  /** There is one way to write a number, and it is the printed one. */
  lemma {:induction false} NumeralIsDecimal(s: string, n: nat)
    ensures Numeral(s, n) <==> s == Decimal(n)
  {
    hide Digit;
    DecimalIsNumeral(n);
    if Numeral(s, n) {
      var k, c := |s| - 1, s[|s| - 1];
      DigitIsNumeral(c as int - '0' as int);
      if k == 0 {
        assert s[..0] == "";
        assert s == [c];
      } else {
        NumeralIsPositive(s[..k]);
        NumeralIsDecimal(s[..k], n / 10);
        assert s == s[..k] + [c];
      }
    }
  }

  function Dotted(name: string, member: string): string { name + "." + member }

  function Indexed(name: string, i: nat): string { name + "(" + Decimal(i) + ")" }

  /** Where element n of an array starts. */
  function ElementOff(reg: Registry, ty: TypeName, off: nat, n: nat): nat
    requires Known(reg, ty)
  {
    off + TypeSize(reg, ty) * n
  }

  /** Types refer to earlier types only. */
  ghost predicate Ranked(reg: Registry) {
    forall i, k :: 0 <= i < |reg| && 0 <= k < |reg[i].members| ==>
      Known(reg, reg[i].members[k].ty) && Rank(reg, reg[i].members[k].ty) <= i
  }

  function Rank(reg: Registry, ty: TypeName): nat
    requires Known(reg, ty)
  {
    if ty.Basic? then 0 else Find(reg, ty.name).value + 1
  }

  /** The measure of the walk is the rank of the type, then whether the array index
      has still to be chosen. */
  ghost function WalkOne(reg: Registry, ty: TypeName, name: string, off: nat): seq<Leaf>
    requires Ranked(reg) && Known(reg, ty)
    decreases Rank(reg, ty), 0, 0
  {
    match ty
    case Basic(kind) => [Leaf(name, off, kind)]
    case Named(n) => var i := Find(reg, n).value; WalkMembers(reg, i, |reg[i].members|, name, off)
  }

  /** The first k members of type i. */
  ghost function WalkMembers(reg: Registry, i: nat, k: nat, name: string, off: nat): seq<Leaf>
    requires Ranked(reg) && i < |reg| && k <= |reg[i].members|
    decreases i, 3, k
  {
    if k == 0 then []
    else
      var m := reg[i].members[k - 1];
      WalkMembers(reg, i, k - 1, name, off)
      + Walk(reg, m.ty, m.isArray, m.arrayNum, Dotted(name, m.name), off + m.offset)
  }

  ghost function Walk(reg: Registry, ty: TypeName, isArray: bool, num: nat, name: string, off: nat): seq<Leaf>
    requires Ranked(reg) && Known(reg, ty)
    decreases Rank(reg, ty), 2, 0
  {
    if isArray then WalkElements(reg, ty, num, name, off) else WalkOne(reg, ty, name, off)
  }

  /** The first n elements of an array. */
  ghost function WalkElements(reg: Registry, ty: TypeName, n: nat, name: string, off: nat): seq<Leaf>
    requires Ranked(reg) && Known(reg, ty)
    decreases Rank(reg, ty), 1, n
  {
    if n == 0 then []
    else WalkElements(reg, ty, n - 1, name, off)
         + WalkOne(reg, ty, Indexed(name, n - 1), ElementOff(reg, ty, off, n - 1))
  }

  /** The elements of an array of a basic type, each with the number that it is printed
      with and the place that it is read from. */
  lemma {:induction false} ElementsOfBasic(reg: Registry, k: Kind, n: nat, name: string, off: nat)
    requires Ranked(reg)
    ensures var ls := WalkElements(reg, Basic(k), n, name, off);
            && |ls| == n
            && forall i: nat :: i < n ==> ls[i] == Leaf(name + "(" + Decimal(i) + ")", off + KindSize(k) * i, k)
    decreases n
  {
    hide Decimal;
    if n > 0 {
      ElementsOfBasic(reg, k, n - 1, name, off);
    }
  }

  // ----- Registries that the commands build are ranked -----

  lemma PrefixTypes(reg: Registry, i: nat, ty: TypeName)
    requires i <= |reg| && Known(reg[..i], ty)
    ensures Known(reg, ty) && Rank(reg, ty) <= i && Rank(reg, ty) == Rank(reg[..i], ty)
    ensures TypeSize(reg, ty) == TypeSize(reg[..i], ty)
    ensures TypeAlign(reg, ty) == TypeAlign(reg[..i], ty)
    ensures TypeLeafNum(reg, ty) == TypeLeafNum(reg[..i], ty)
  {
    if ty.Named? {
      FindInPrefix(reg[..i], reg[i..], ty.name);
      assert reg[..i] + reg[i..] == reg;
    }
  }

  /** A definition can only mention types that are already there, so the walk ends
      for every registry that the commands can build. */
  lemma WellFormedIsRanked(reg: Registry, szPtr: nat)
    requires WellFormed(reg, szPtr)
    ensures Ranked(reg)
  {
    forall i, k | 0 <= i < |reg| && 0 <= k < |reg[i].members|
      ensures Known(reg, reg[i].members[k].ty) && Rank(reg, reg[i].members[k].ty) <= i
    {
      assert Built(reg, szPtr, i);
      PrefixTypes(reg, i, reg[i].members[k].ty);
    }
  }

  // ----- How many variables the walk sets -----

  ghost function LeafCount(reg: Registry, ty: TypeName): nat
    requires Ranked(reg) && Known(reg, ty)
    decreases Rank(reg, ty), 0, 0
  {
    match ty
    case Basic(_) => 1
    case Named(n) => var i := Find(reg, n).value; MemberCount(reg, i, |reg[i].members|)
  }

  ghost function MemberCount(reg: Registry, i: nat, k: nat): nat
    requires Ranked(reg) && i < |reg| && k <= |reg[i].members|
    decreases i, 1, k
  {
    if k == 0 then 0
    else
      var m := reg[i].members[k - 1];
      MemberCount(reg, i, k - 1) + LeafCount(reg, m.ty) * Count(m)
  }

  lemma {:induction false} WalkOneLength(reg: Registry, ty: TypeName, name: string, off: nat)
    requires Ranked(reg) && Known(reg, ty)
    ensures |WalkOne(reg, ty, name, off)| == LeafCount(reg, ty)
    decreases Rank(reg, ty), 0, 0
  {
    if ty.Named? {
      var i := Find(reg, ty.name).value;
      WalkMembersLength(reg, i, |reg[i].members|, name, off);
    }
  }

  lemma TimesStep(a: nat, n: nat)
    requires n > 0
    ensures a * n == a * (n - 1) + a
  {
  }

  lemma {:induction false} WalkElementsLength(reg: Registry, ty: TypeName, n: nat, name: string, off: nat)
    requires Ranked(reg) && Known(reg, ty)
    ensures |WalkElements(reg, ty, n, name, off)| == LeafCount(reg, ty) * n
    decreases Rank(reg, ty), 1, n
  {
    hide ElementOff, LeafCount;
    if n > 0 {
      WalkElementsLength(reg, ty, n - 1, name, off);
      WalkOneLength(reg, ty, Indexed(name, n - 1), ElementOff(reg, ty, off, n - 1));
      TimesStep(LeafCount(reg, ty), n);
    }
  }

  lemma {:induction false} WalkMembersLength(reg: Registry, i: nat, k: nat, name: string, off: nat)
    requires Ranked(reg) && i < |reg| && k <= |reg[i].members|
    ensures |WalkMembers(reg, i, k, name, off)| == MemberCount(reg, i, k)
    decreases i, 3, k
  {
    if k > 0 {
      var m := reg[i].members[k - 1];
      WalkMembersLength(reg, i, k - 1, name, off);
      if m.isArray {
        WalkElementsLength(reg, m.ty, m.arrayNum, Dotted(name, m.name), off + m.offset);
      } else {
        WalkOneLength(reg, m.ty, Dotted(name, m.name), off + m.offset);
      }
    }
  }

  lemma TimesModulo(each: nat, count: nat)
    ensures ((each % WORD) * count) % WORD == (each * count) % WORD
  {
    var q, r := each / WORD, each % WORD;
    calc {
      each * count;
      (WORD * q + r) * count;
      WORD * (q * count) + r * count;
    }
    DropMultiple(q * count, r * count);
  }

  lemma LeafStepModulo(leaves: nat, each: nat, count: nat)
    ensures LeafStep(leaves % WORD, each % WORD, count) == (leaves + each * count) % WORD
  {
    TimesModulo(each, count);
    DropMultiple(leaves / WORD, leaves % WORD + (each * count) % WORD);
    DropMultiple((each * count) / WORD, leaves + (each * count) % WORD);
  }

  lemma DropMultiple(q: nat, r: nat)
    ensures (WORD * q + r) % WORD == r % WORD
  {
  }

  lemma MembersAreKnown(reg: Registry, szPtr: nat, i: nat)
    requires WellFormed(reg, szPtr) && i < |reg|
    ensures AllKnown(reg[..i], reg[i].members)
  {
    assert Built(reg, szPtr, i);
  }

  lemma {:induction false} LeafNumIsCount(reg: Registry, szPtr: nat, i: nat, k: nat)
    requires WellFormed(reg, szPtr) && Ranked(reg) && i < |reg| && k <= |reg[i].members|
    ensures AllKnown(reg[..i], reg[i].members)
    ensures LeafNum(reg[..i], reg[i].members, k) == MemberCount(reg, i, k) % WORD
    decreases i, 1, k
  {
    hide LeafStep, WellFormed, IsAlignment, Built, SettingOf;
    MembersAreKnown(reg, szPtr, i);
    if k > 0 {
      var m := reg[i].members[k - 1];
      PrefixTypes(reg, i, m.ty);
      LeafNumIsCount(reg, szPtr, i, k - 1);
      TotalMemberNumIsLeafCount(reg, szPtr, m.ty);
      LeafStepModulo(MemberCount(reg, i, k - 1), LeafCount(reg, m.ty), Count(m));
    }
  }

  /** The recorded total member number is the number of leaves, modulo 2^32. */
  lemma {:induction false} TotalMemberNumIsLeafCount(reg: Registry, szPtr: nat, ty: TypeName)
    requires WellFormed(reg, szPtr) && Ranked(reg) && Known(reg, ty)
    ensures TypeLeafNum(reg, ty) == LeafCount(reg, ty) % WORD
    decreases Rank(reg, ty), 0, 0
  {
    if ty.Named? {
      var i := Find(reg, ty.name).value;
      assert Built(reg, szPtr, i);
      LeafNumIsCount(reg, szPtr, i, |reg[i].members|);
    }
  }

  /** The walk over a value sets exactly `TotalMemberNum` variables, as far as that
      number has 32 bits. */
  lemma {:induction false} WalkSetsTotalMemberNum(reg: Registry, szPtr: nat, ty: TypeName, name: string, off: nat)
    requires WellFormed(reg, szPtr) && Known(reg, ty)
    ensures Ranked(reg) && |WalkOne(reg, ty, name, off)| % WORD == TypeLeafNum(reg, ty)
  {
    WellFormedIsRanked(reg, szPtr);
    WalkOneLength(reg, ty, name, off);
    TotalMemberNumIsLeafCount(reg, szPtr, ty);
  }
}
