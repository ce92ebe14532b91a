/** How one basic value travels: as hex digits of its bytes in memory order. */
module RivlValue {
  import opened Basics
  import opened RivlLayout

  // ----- Bytes -----

  function Pow256(k: nat): (p: nat)
    ensures p > 0
  {
    if k == 0 then 1 else 256 * Pow256(k - 1)
  }

  /** The k low bytes of n, lowest first: n as a little-endian host stores it. */
  function ToBytes(n: nat, k: nat): (bs: seq<Byte>)
    ensures |bs| == k
  {
    if k == 0 then [] else [n % 256] + ToBytes(n / 256, k - 1)
  }

  function FromBytes(bs: seq<Byte>): (n: nat)
    ensures n < Pow256(|bs|)
  {
    if bs == [] then 0 else bs[0] + 256 * FromBytes(bs[1..])
  }

  lemma {:induction false} BytesOfNumber(n: nat, k: nat)
    requires n < Pow256(k)
    ensures FromBytes(ToBytes(n, k)) == n
  {
    if k > 0 {
      BytesOfNumber(n / 256, k - 1);
      assert ToBytes(n, k)[1..] == ToBytes(n / 256, k - 1);
    }
  }

  lemma {:induction false} NumberOfBytes(bs: seq<Byte>)
    ensures ToBytes(FromBytes(bs), |bs|) == bs
  {
    if bs != [] {
      NumberOfBytes(bs[1..]);
      assert FromBytes(bs) % 256 == bs[0] && FromBytes(bs) / 256 == FromBytes(bs[1..]);
      assert bs == [bs[0]] + bs[1..];
    }
  }

  // ----- The byte swaps, as written -----

  /** B[0] << 8 | B[1] of the bytes B of a UINT16. */
  function Swap16(n: nat): nat {
    var b := ToBytes(n, 2);
    0x100 * b[0] as int + b[1]
  }

  function Swap32(n: nat): nat {
    var b := ToBytes(n, 4);
    0x100_0000 * b[0] as int + 0x1_0000 * b[1] as int + 0x100 * b[2] as int + b[3]
  }

  /** Swaps the bytes pairwise in place. */
  method SwapInPlace(b: array<Byte>)
    requires b.Length == 8
    modifies b
    ensures b[..] == Reverse(old(b[..]))
  {
    hide Reverse;
    ghost var was := b[..];
    var t := b[0];
    b[0] := b[7];
    b[7] := t;
    t := b[1];
    b[1] := b[6];
    b[6] := t;
    t := b[2];
    b[2] := b[5];
    b[5] := t;
    t := b[3];
    b[3] := b[4];
    b[4] := t;
    assert forall i :: 0 <= i < 8 ==> b[i] == was[7 - i];
  }

  method Swap64(n: nat) returns (r: nat)
    requires n < Pow256(8)
    ensures r == Swapped(n, 8)
  {
    var b := new Byte[8](i requires 0 <= i < 8 => ToBytes(n, 8)[i]);
    assert b[..] == ToBytes(n, 8);
    SwapInPlace(b);
    r := FromBytes(b[..]);
  }

  /** What a swap of k bytes means. */
  function Swapped(n: nat, k: nat): (r: nat)
    ensures r < Pow256(k)
  {
    FromBytes(Reverse(ToBytes(n, k)))
  }

  lemma {:induction false} Four(b: seq<Byte>)
    requires |b| == 4
    ensures FromBytes(b) == b[0] + 0x100 * b[1] as int + 0x1_0000 * b[2] as int + 0x100_0000 * b[3] as int
  {
    assert b[1..][1..] == b[2..] && b[2..][1..] == b[3..] && b[3..][1..] == [];
    assert FromBytes(b[3..]) == b[3];
    assert FromBytes(b[2..]) == b[2] + 256 * b[3] as int;
  }

  lemma SwapsAsWritten(n: nat)
    ensures Swap16(n) == Swapped(n, 2) && Swap32(n) == Swapped(n, 4)
  {
    var b := Reverse(ToBytes(n, 2));
    assert b[1..][1..] == [];
    assert FromBytes(b[1..]) == b[1];
    Four(Reverse(ToBytes(n, 4)));
  }

  lemma {:induction false} SwapTwice(n: nat, k: nat)
    requires n < Pow256(k)
    ensures Swapped(Swapped(n, k), k) == n
  {
    var bs := ToBytes(n, k);
    NumberOfBytes(Reverse(bs));
    assert Reverse(Reverse(bs)) == bs;
    BytesOfNumber(n, k);
  }

  // ----- Hex digits -----

  function HexDigit(d: nat): char
    requires d < 16
  {
    ['0', '1', '2', '3', '4', '5', '6', '7', '8', '9', 'a', 'b', 'c', 'd', 'e', 'f'][d]
  }

  /** The value of a hex digit; -1 as a UINT32 for any other character. */
  function DigitValue(c: char): nat {
    if '0' <= c <= '9' then c as nat - '0' as nat
    else if 'a' <= c <= 'f' then c as nat - 'a' as nat + 10
    else if 'A' <= c <= 'F' then c as nat - 'A' as nat + 10
    else 0xFFFF_FFFF
  }

  /** `%0<d>x` of a number that has at most d digits. */
  function Hex(n: nat, d: nat): (s: string)
    ensures |s| == d
  {
    if d == 0 then "" else Hex(n / 16, d - 1) + [HexDigit(n % 16)]
  }

  /** The number that a string of digits writes, highest digit first. */
  function Parse(s: string): nat {
    if s == "" then 0 else Parse(s[..|s| - 1]) * 16 + DigitValue(s[|s| - 1])
  }

  lemma DigitRoundTrip(d: nat)
    requires d < 16
    ensures DigitValue(HexDigit(d)) == d
    ensures HexDigit(d) as int == if d < 10 then '0' as int + d else 'a' as int + d - 10
    ensures d >= 10 ==> DigitValue("ABCDEF"[d - 10]) == d
  {
  }

  function Pow16(d: nat): (p: nat)
    ensures p > 0
  {
    if d == 0 then 1 else 16 * Pow16(d - 1)
  }

  lemma {:induction false} BytesAreTwoDigits(k: nat)
    ensures Pow256(k) == Pow16(2 * k)
  {
    if k > 0 {
      BytesAreTwoDigits(k - 1);
      assert Pow16(2 * k) == 16 * Pow16(2 * k - 1) == 16 * (16 * Pow16(2 * k - 2));
    }
  }

  lemma LastHexDigit(n: nat, d: nat)
    ensures |Hex(n, d)| == d
    ensures d > 0 ==> Hex(n, d)[..d - 1] == Hex(n / 16, d - 1) && Hex(n, d)[d - 1] == HexDigit(n % 16)
  {
  }

  lemma {:induction false} ParseHex(n: nat, d: nat)
    requires n < Pow16(d)
    ensures Parse(Hex(n, d)) == n
  {
    hide DigitValue, HexDigit, Hex;
    LastHexDigit(n, d);
    if d > 0 {
      ParseHex(n / 16, d - 1);
      DigitRoundTrip(n % 16);
    }
  }

  lemma {:induction false} TwoDigits(n: nat, d: nat)
    ensures Hex(n, d + 2) == Hex(n / 16 / 16, d) + [HexDigit(n / 16 % 16), HexDigit(n % 16)]
  {
    assert Hex(n / 16, d + 1) == Hex(n / 16 / 16, d) + [HexDigit(n / 16 % 16)];
  }

  /** The hex digits of a byte string, byte by byte. */
  function HexBytes(bs: seq<Byte>): (s: string)
    ensures |s| == 2 * |bs|
  {
    if bs == [] then ""
    else HexBytes(bs[..|bs| - 1]) + [HexDigit(bs[|bs| - 1] / 16), HexDigit(bs[|bs| - 1] % 16)]
  }

  lemma SplitByte(b: Byte, w: nat)
    ensures var v := b + 256 * w;
            v / 16 / 16 == w && v / 16 % 16 == b / 16 && v % 16 == b % 16
  {
    assert (b + 256 * w) / 16 == b / 16 + 16 * w;
  }

  lemma NoDigits()
    ensures Hex(FromBytes([]), 0) == "" == HexBytes([]) && Hex(0, 0) == ""
  {
  }

  lemma {:induction false} HexOfReversed(bs: seq<Byte>)
    ensures Hex(FromBytes(Reverse(bs)), 2 * |bs|) == HexBytes(bs)
  {
    hide Hex, HexDigit, ToBytes;
    if bs == [] {
      assert Reverse(bs) == [];
      NoDigits();
    } else {
      var n := |bs|;
      var init, last := bs[..n - 1], bs[n - 1];
      HexOfReversed(init);
      assert Reverse(bs) == [last] + Reverse(init);
      assert Reverse(bs)[1..] == Reverse(init);
      SplitByte(last, FromBytes(Reverse(init)));
      TwoDigits(FromBytes(Reverse(bs)), 2 * n - 2);
    }
  }

  lemma SplitDigit(x: nat, lo: nat)
    ensures (16 * x + lo) / 16 == x + lo / 16 && (16 * x + lo) % 16 == lo % 16
  {
  }

  lemma ShiftDigit(hi: nat, e: nat)
    requires e > 0
    ensures hi * Pow16(e) == 16 * (hi * Pow16(e - 1))
  {
  }

  lemma {:induction false} HexInTwoParts(hi: nat, lo: nat, d: nat, e: nat)
    requires lo < Pow16(e)
    ensures Hex(hi * Pow16(e) + lo, d + e) == Hex(hi, d) + Hex(lo, e)
  {
    hide HexDigit;
    if e == 0 {
      assert Hex(hi, d) + "" == Hex(hi, d);
    } else {
      HexInTwoParts(hi, lo / 16, d, e - 1);
      ShiftDigit(hi, e);
      SplitDigit(hi * Pow16(e - 1), lo);
    }
  }

  // ----- Values -----

  datatype Value = BoolVal(b: bool) | IntVal(n: nat)

  predicate InRange(k: Kind, v: Value) {
    if k == Bool then v.BoolVal? else v.IntVal? && v.n < Pow256(KindSize(k))
  }

  /** What `Validate` appends for one item. */
  function Encode(k: Kind, v: Value): (s: string)
    requires InRange(k, v)
    ensures |s| == 2 * KindSize(k)
  {
    match k
    case Bool => if v.b then "01" else "00"
    case Int8 => Hex(v.n, 2)
    case Int16 => Hex(Swap16(v.n), 4)
    case Int32 => Hex(Swap32(v.n), 8)
    case Int64 =>
      var swapped := Swapped(v.n, 8);
      Hex(swapped / 0x1_0000_0000, 8) + Hex(swapped % 0x1_0000_0000, 8)
  }

  /** What `Convert` makes of the digits of one value. */
  function Decode(k: Kind, s: string): Value
    requires |s| == 2 * KindSize(k)
  {
    match k
    case Bool => BoolVal(Parse(s) % 0x100 != 0)
    case Int8 => IntVal(Parse(s) % 0x100)
    case Int16 => IntVal(Swap16(Parse(s) % 0x1_0000))
    case Int32 => IntVal(Swap32(Parse(s) % 0x1_0000_0000))
    case Int64 => IntVal(Swapped(Parse(s) % 0x1_0000_0000_0000_0000, 8))
  }

  /** Every kind of integer travels as the hex digits of its bytes, lowest byte first. */
  lemma EncodedInMemoryOrder(k: Kind, v: Value)
    requires InRange(k, v)
    ensures Encode(k, v) == HexBytes(ToBytes(if k == Bool then (if v.b then 1 else 0) else v.n, KindSize(k)))
  {
    hide Hex, HexBytes, ToBytes, FromBytes, Pow256;
    Powers();
    match k
    case Bool =>
      assert (if v.b then 1 else 0) / 16 == 0;
      OneByte(if v.b then 1 else 0);
    case Int8 =>
      OneByte(v.n);
    case Int16 =>
      SwapsAsWritten(v.n);
      HexOfReversed(ToBytes(v.n, 2));
    case Int32 =>
      SwapsAsWritten(v.n);
      HexOfReversed(ToBytes(v.n, 4));
    case Int64 =>
      HexOfReversed(ToBytes(v.n, 8));
      SixteenDigits(Swapped(v.n, 8));
  }

  lemma {:induction false} OneByte(n: Byte)
    ensures HexBytes(ToBytes(n, 1)) == Hex(n, 2) == [HexDigit(n / 16), HexDigit(n % 16)]
  {
    assert ToBytes(n, 1) == [n];
    hide ToBytes, HexDigit, Hex;
    TwoDigits(n, 0);
    NoDigits();
    assert n / 16 / 16 == 0 && n / 16 % 16 == n / 16;
    assert [n][..0] == [] && HexBytes([n]) == [HexDigit(n / 16), HexDigit(n % 16)];
    assert Hex(n, 2) == Hex(0, 0) + [HexDigit(n / 16), HexDigit(n % 16)];
  }

  lemma {:induction false} SixteenDigits(n: nat)
    requires n < Pow256(8)
    ensures Hex(n / 0x1_0000_0000, 8) + Hex(n % 0x1_0000_0000, 8) == Hex(n, 16)
  {
    hide Hex;
    assert Pow16(8) == 0x1_0000_0000 by {
      assert Pow16(4) == 0x1_0000;
    }
    HexInTwoParts(n / 0x1_0000_0000, n % 0x1_0000_0000, 8, 8);
  }

  lemma {:induction false} SwappedRoundTrip(n: nat, size: nat)
    requires n < Pow256(size)
    ensures Parse(Hex(Swapped(n, size), 2 * size)) == Swapped(n, size) < Pow256(size)
    ensures Swapped(Swapped(n, size), size) == n
  {
    BytesAreTwoDigits(size);
    SwapTwice(n, size);
    ParseHex(Swapped(n, size), 2 * size);
  }

  lemma IntRoundTrip(k: Kind, n: nat)
    requires k != Bool && n < Pow256(KindSize(k))
    ensures Decode(k, Encode(k, IntVal(n))) == IntVal(n)
  {
    hide Hex, Parse, ToBytes, FromBytes, Swapped, Swap16, Swap32, Pow256;
    var size := KindSize(k);
    Powers();
    SwappedRoundTrip(n, size);
    SwapsAsWritten(n);
    SwapsAsWritten(Swapped(n, size));
    match k
    case Int8 =>
      BytesAreTwoDigits(1);
      ParseHex(n, 2);
    case Int16 =>
    case Int32 =>
    case Int64 =>
      SixteenDigits(Swapped(n, 8));
  }

  /** Decoding inverts encoding. */
  lemma ValueRoundTrip(k: Kind, v: Value)
    requires InRange(k, v)
    ensures Decode(k, Encode(k, v)) == v
  {
    if k == Bool {
      var s := Encode(k, v);
      assert s[..1] == "0" && s[..1][..0] == "";
      assert Parse(s[..1]) == 0;
    } else {
      IntRoundTrip(k, v.n);
    }
  }

  lemma Powers()
    ensures Pow256(1) == 0x100 && Pow256(2) == 0x1_0000 && Pow256(4) == 0x1_0000_0000
    ensures Pow256(8) == 0x1_0000_0000_0000_0000
  {
    assert Pow256(5) == 256 * Pow256(4);
    assert Pow256(6) == 256 * Pow256(5);
    assert Pow256(7) == 256 * Pow256(6);
  }
}
