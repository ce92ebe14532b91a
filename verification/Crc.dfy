/** The table-driven CRC against the one defined bit by bit. */
module Crc {
  // The checksum of the transfer protocol is the CRC-32 of section 3.2.9 of IEEE 802.3:
  // reflected, polynomial 0xEDB88320.

  const POLYNOMIAL: bv32 := 0xEDB8_8320

  // ----- One bit at a time -----

  function Xor(a: bv32, b: bv32): bv32 { a ^ b }

  function Half(a: bv32): bv32 { a >> 1 }

  predicate Odd(a: bv32) { a & 1 == 1 }

  function BitOf(bit: bool): bv32 { if bit then 1 else 0 }

  /** Shifts one bit out of the register. */
  function Shift(crc: bv32): bv32 {
    if Odd(crc) then Xor(Half(crc), POLYNOMIAL) else Half(crc)
  }

  function Feed(crc: bv32, bit: bool): bv32 { Shift(Xor(crc, BitOf(bit))) }

  function FeedAll(crc: bv32, bits: seq<bool>): bv32
    decreases |bits|
  {
    if bits == [] then crc else FeedAll(Feed(crc, bits[0]), bits[1..])
  }

  /** The n lowest bits, the lowest first. */
  function LowBits(v: bv32, n: nat): (bits: seq<bool>)
    ensures |bits| == n
    decreases n
  {
    if n == 0 then [] else [Odd(v)] + LowBits(Half(v), n - 1)
  }

  /** The bits of the message in the order they are sent. */
  function MessageBits(bs: seq<bv8>): seq<bool> {
    if bs == [] then [] else MessageBits(bs[..|bs| - 1]) + LowBits(bs[|bs| - 1] as bv32, 8)
  }

  function Complement(crc: bv32): bv32 { Xor(crc, 0xFFFF_FFFF) }

  /** CRC-32 of a string of bits. */
  function Crc32(bits: seq<bool>): bv32 { Complement(FeedAll(0xFFFF_FFFF, bits)) }

  lemma {:induction false} FeedJoin(crc: bv32, a: seq<bool>, b: seq<bool>)
    ensures FeedAll(crc, a + b) == FeedAll(FeedAll(crc, a), b)
    decreases |a|
  {
    if a == [] {
      assert a + b == b;
    } else {
      FeedJoin(Feed(crc, a[0]), a[1..], b);
      assert (a + b)[1..] == a[1..] + b;
    }
  }

  function Shift8(crc: bv32): bv32 { Shift(Shift(Shift(Shift(Shift(Shift(Shift(Shift(crc)))))))) }

  // ----- The table, in rows of sixteen -----

  function Row0(low: bv4): (r: bv32)
    ensures r == Shift8(0x00 | low as bv32)
  {
    match low
    case 0 => 0x0000_0000 case 1 => 0x7707_3096 case 2 => 0xEE0E_612C case 3 => 0x9909_51BA
    case 4 => 0x076D_C419 case 5 => 0x706A_F48F case 6 => 0xE963_A535 case 7 => 0x9E64_95A3
    case 8 => 0x0EDB_8832 case 9 => 0x79DC_B8A4 case 10 => 0xE0D5_E91E case 11 => 0x97D2_D988
    case 12 => 0x09B6_4C2B case 13 => 0x7EB1_7CBD case 14 => 0xE7B8_2D07 case 15 => 0x90BF_1D91
  }

  function Row1(low: bv4): (r: bv32)
    ensures r == Shift8(0x10 | low as bv32)
  {
    match low
    case 0 => 0x1DB7_1064 case 1 => 0x6AB0_20F2 case 2 => 0xF3B9_7148 case 3 => 0x84BE_41DE
    case 4 => 0x1ADA_D47D case 5 => 0x6DDD_E4EB case 6 => 0xF4D4_B551 case 7 => 0x83D3_85C7
    case 8 => 0x136C_9856 case 9 => 0x646B_A8C0 case 10 => 0xFD62_F97A case 11 => 0x8A65_C9EC
    case 12 => 0x1401_5C4F case 13 => 0x6306_6CD9 case 14 => 0xFA0F_3D63 case 15 => 0x8D08_0DF5
  }

  function Row2(low: bv4): (r: bv32)
    ensures r == Shift8(0x20 | low as bv32)
  {
    match low
    case 0 => 0x3B6E_20C8 case 1 => 0x4C69_105E case 2 => 0xD560_41E4 case 3 => 0xA267_7172
    case 4 => 0x3C03_E4D1 case 5 => 0x4B04_D447 case 6 => 0xD20D_85FD case 7 => 0xA50A_B56B
    case 8 => 0x35B5_A8FA case 9 => 0x42B2_986C case 10 => 0xDBBB_C9D6 case 11 => 0xACBC_F940
    case 12 => 0x32D8_6CE3 case 13 => 0x45DF_5C75 case 14 => 0xDCD6_0DCF case 15 => 0xABD1_3D59
  }

  function Row3(low: bv4): (r: bv32)
    ensures r == Shift8(0x30 | low as bv32)
  {
    match low
    case 0 => 0x26D9_30AC case 1 => 0x51DE_003A case 2 => 0xC8D7_5180 case 3 => 0xBFD0_6116
    case 4 => 0x21B4_F4B5 case 5 => 0x56B3_C423 case 6 => 0xCFBA_9599 case 7 => 0xB8BD_A50F
    case 8 => 0x2802_B89E case 9 => 0x5F05_8808 case 10 => 0xC60C_D9B2 case 11 => 0xB10B_E924
    case 12 => 0x2F6F_7C87 case 13 => 0x5868_4C11 case 14 => 0xC161_1DAB case 15 => 0xB666_2D3D
  }

  function Row4(low: bv4): (r: bv32)
    ensures r == Shift8(0x40 | low as bv32)
  {
    match low
    case 0 => 0x76DC_4190 case 1 => 0x01DB_7106 case 2 => 0x98D2_20BC case 3 => 0xEFD5_102A
    case 4 => 0x71B1_8589 case 5 => 0x06B6_B51F case 6 => 0x9FBF_E4A5 case 7 => 0xE8B8_D433
    case 8 => 0x7807_C9A2 case 9 => 0x0F00_F934 case 10 => 0x9609_A88E case 11 => 0xE10E_9818
    case 12 => 0x7F6A_0DBB case 13 => 0x086D_3D2D case 14 => 0x9164_6C97 case 15 => 0xE663_5C01
  }

  function Row5(low: bv4): (r: bv32)
    ensures r == Shift8(0x50 | low as bv32)
  {
    match low
    case 0 => 0x6B6B_51F4 case 1 => 0x1C6C_6162 case 2 => 0x8565_30D8 case 3 => 0xF262_004E
    case 4 => 0x6C06_95ED case 5 => 0x1B01_A57B case 6 => 0x8208_F4C1 case 7 => 0xF50F_C457
    case 8 => 0x65B0_D9C6 case 9 => 0x12B7_E950 case 10 => 0x8BBE_B8EA case 11 => 0xFCB9_887C
    case 12 => 0x62DD_1DDF case 13 => 0x15DA_2D49 case 14 => 0x8CD3_7CF3 case 15 => 0xFBD4_4C65
  }

  function Row6(low: bv4): (r: bv32)
    ensures r == Shift8(0x60 | low as bv32)
  {
    match low
    case 0 => 0x4DB2_6158 case 1 => 0x3AB5_51CE case 2 => 0xA3BC_0074 case 3 => 0xD4BB_30E2
    case 4 => 0x4ADF_A541 case 5 => 0x3DD8_95D7 case 6 => 0xA4D1_C46D case 7 => 0xD3D6_F4FB
    case 8 => 0x4369_E96A case 9 => 0x346E_D9FC case 10 => 0xAD67_8846 case 11 => 0xDA60_B8D0
    case 12 => 0x4404_2D73 case 13 => 0x3303_1DE5 case 14 => 0xAA0A_4C5F case 15 => 0xDD0D_7CC9
  }

  function Row7(low: bv4): (r: bv32)
    ensures r == Shift8(0x70 | low as bv32)
  {
    match low
    case 0 => 0x5005_713C case 1 => 0x2702_41AA case 2 => 0xBE0B_1010 case 3 => 0xC90C_2086
    case 4 => 0x5768_B525 case 5 => 0x206F_85B3 case 6 => 0xB966_D409 case 7 => 0xCE61_E49F
    case 8 => 0x5EDE_F90E case 9 => 0x29D9_C998 case 10 => 0xB0D0_9822 case 11 => 0xC7D7_A8B4
    case 12 => 0x59B3_3D17 case 13 => 0x2EB4_0D81 case 14 => 0xB7BD_5C3B case 15 => 0xC0BA_6CAD
  }

  function Row8(low: bv4): (r: bv32)
    ensures r == Shift8(0x80 | low as bv32)
  {
    match low
    case 0 => 0xEDB8_8320 case 1 => 0x9ABF_B3B6 case 2 => 0x03B6_E20C case 3 => 0x74B1_D29A
    case 4 => 0xEAD5_4739 case 5 => 0x9DD2_77AF case 6 => 0x04DB_2615 case 7 => 0x73DC_1683
    case 8 => 0xE363_0B12 case 9 => 0x9464_3B84 case 10 => 0x0D6D_6A3E case 11 => 0x7A6A_5AA8
    case 12 => 0xE40E_CF0B case 13 => 0x9309_FF9D case 14 => 0x0A00_AE27 case 15 => 0x7D07_9EB1
  }

  function Row9(low: bv4): (r: bv32)
    ensures r == Shift8(0x90 | low as bv32)
  {
    match low
    case 0 => 0xF00F_9344 case 1 => 0x8708_A3D2 case 2 => 0x1E01_F268 case 3 => 0x6906_C2FE
    case 4 => 0xF762_575D case 5 => 0x8065_67CB case 6 => 0x196C_3671 case 7 => 0x6E6B_06E7
    case 8 => 0xFED4_1B76 case 9 => 0x89D3_2BE0 case 10 => 0x10DA_7A5A case 11 => 0x67DD_4ACC
    case 12 => 0xF9B9_DF6F case 13 => 0x8EBE_EFF9 case 14 => 0x17B7_BE43 case 15 => 0x60B0_8ED5
  }

  function RowA(low: bv4): (r: bv32)
    ensures r == Shift8(0xA0 | low as bv32)
  {
    match low
    case 0 => 0xD6D6_A3E8 case 1 => 0xA1D1_937E case 2 => 0x38D8_C2C4 case 3 => 0x4FDF_F252
    case 4 => 0xD1BB_67F1 case 5 => 0xA6BC_5767 case 6 => 0x3FB5_06DD case 7 => 0x48B2_364B
    case 8 => 0xD80D_2BDA case 9 => 0xAF0A_1B4C case 10 => 0x3603_4AF6 case 11 => 0x4104_7A60
    case 12 => 0xDF60_EFC3 case 13 => 0xA867_DF55 case 14 => 0x316E_8EEF case 15 => 0x4669_BE79
  }

  function RowB(low: bv4): (r: bv32)
    ensures r == Shift8(0xB0 | low as bv32)
  {
    match low
    case 0 => 0xCB61_B38C case 1 => 0xBC66_831A case 2 => 0x256F_D2A0 case 3 => 0x5268_E236
    case 4 => 0xCC0C_7795 case 5 => 0xBB0B_4703 case 6 => 0x2202_16B9 case 7 => 0x5505_262F
    case 8 => 0xC5BA_3BBE case 9 => 0xB2BD_0B28 case 10 => 0x2BB4_5A92 case 11 => 0x5CB3_6A04
    case 12 => 0xC2D7_FFA7 case 13 => 0xB5D0_CF31 case 14 => 0x2CD9_9E8B case 15 => 0x5BDE_AE1D
  }

  function RowC(low: bv4): (r: bv32)
    ensures r == Shift8(0xC0 | low as bv32)
  {
    match low
    case 0 => 0x9B64_C2B0 case 1 => 0xEC63_F226 case 2 => 0x756A_A39C case 3 => 0x026D_930A
    case 4 => 0x9C09_06A9 case 5 => 0xEB0E_363F case 6 => 0x7207_6785 case 7 => 0x0500_5713
    case 8 => 0x95BF_4A82 case 9 => 0xE2B8_7A14 case 10 => 0x7BB1_2BAE case 11 => 0x0CB6_1B38
    case 12 => 0x92D2_8E9B case 13 => 0xE5D5_BE0D case 14 => 0x7CDC_EFB7 case 15 => 0x0BDB_DF21
  }

  function RowD(low: bv4): (r: bv32)
    ensures r == Shift8(0xD0 | low as bv32)
  {
    match low
    case 0 => 0x86D3_D2D4 case 1 => 0xF1D4_E242 case 2 => 0x68DD_B3F8 case 3 => 0x1FDA_836E
    case 4 => 0x81BE_16CD case 5 => 0xF6B9_265B case 6 => 0x6FB0_77E1 case 7 => 0x18B7_4777
    case 8 => 0x8808_5AE6 case 9 => 0xFF0F_6A70 case 10 => 0x6606_3BCA case 11 => 0x1101_0B5C
    case 12 => 0x8F65_9EFF case 13 => 0xF862_AE69 case 14 => 0x616B_FFD3 case 15 => 0x166C_CF45
  }

  function RowE(low: bv4): (r: bv32)
    ensures r == Shift8(0xE0 | low as bv32)
  {
    match low
    case 0 => 0xA00A_E278 case 1 => 0xD70D_D2EE case 2 => 0x4E04_8354 case 3 => 0x3903_B3C2
    case 4 => 0xA767_2661 case 5 => 0xD060_16F7 case 6 => 0x4969_474D case 7 => 0x3E6E_77DB
    case 8 => 0xAED1_6A4A case 9 => 0xD9D6_5ADC case 10 => 0x40DF_0B66 case 11 => 0x37D8_3BF0
    case 12 => 0xA9BC_AE53 case 13 => 0xDEBB_9EC5 case 14 => 0x47B2_CF7F case 15 => 0x30B5_FFE9
  }

  function RowF(low: bv4): (r: bv32)
    ensures r == Shift8(0xF0 | low as bv32)
  {
    match low
    case 0 => 0xBDBD_F21C case 1 => 0xCABA_C28A case 2 => 0x53B3_9330 case 3 => 0x24B4_A3A6
    case 4 => 0xBAD0_3605 case 5 => 0xCDD7_0693 case 6 => 0x54DE_5729 case 7 => 0x23D9_67BF
    case 8 => 0xB366_7A2E case 9 => 0xC461_4AB8 case 10 => 0x5D68_1B02 case 11 => 0x2A6F_2B94
    case 12 => 0xB40B_BE37 case 13 => 0xC30C_8EA1 case 14 => 0x5A05_DF1B case 15 => 0x2D02_EF8D
  }

  /** Every entry is its index shifted out bit by bit. */
  function CrcTable(index: bv8): (r: bv32)
    ensures r == Shift8(index as bv32)
  {
    hide Shift8;
    var low := (index & 15) as bv4;
    assert index as bv32 == (index & 0xF0) as bv32 | low as bv32;
    match index >> 4
    case 0 => Row0(low) case 1 => Row1(low) case 2 => Row2(low) case 3 => Row3(low)
    case 4 => Row4(low) case 5 => Row5(low) case 6 => Row6(low) case 7 => Row7(low)
    case 8 => Row8(low) case 9 => Row9(low) case 10 => RowA(low) case 11 => RowB(low)
    case 12 => RowC(low) case 13 => RowD(low) case 14 => RowE(low) case 15 => RowF(low)
  }

  // ----- One byte at a time -----

  lemma XorCommutes(x: bv32, y: bv32)
    ensures Xor(x, y) == Xor(y, x)
  {
  }

  lemma XorAssociates(x: bv32, y: bv32, z: bv32)
    ensures Xor(Xor(x, y), z) == Xor(x, Xor(y, z))
  {
  }

  lemma HalfLaws(x: bv32, y: bv32)
    ensures Half(Xor(x, y)) == Xor(Half(x), Half(y))
  {
  }

  lemma OddLaws(x: bv32, y: bv32)
    ensures Odd(Xor(x, y)) <==> Odd(x) != Odd(y)
  {
  }

  /** Shifting is linear: what is added to a register with its low bit clear just moves
      down. */
  lemma ShiftApart(x: bv32, y: bv32)
    requires !Odd(y)
    ensures Shift(Xor(x, y)) == Xor(Shift(x), Half(y))
  {
    hide Xor, Half, Odd;
    HalfLaws(x, y);
    OddLaws(x, y);
    XorAssociates(Half(x), Half(y), POLYNOMIAL);
    XorCommutes(Half(y), POLYNOMIAL);
    XorAssociates(Half(x), POLYNOMIAL, Half(y));
  }

  lemma LowBit(v: bv32)
    ensures v == Xor(BitOf(Odd(v)), v & 0xFFFF_FFFE)
    ensures !Odd(v & 0xFFFF_FFFE) && Half(v & 0xFFFF_FFFE) == Half(v)
  {
  }

  lemma FeedStep(crc: bv32, v: bv32)
    ensures Shift(Xor(crc, v)) == Xor(Feed(crc, Odd(v)), Half(v))
  {
    var rest := v & 0xFFFF_FFFE;
    LowBit(v);
    hide Xor, Half, Odd, BitOf, Shift;
    XorAssociates(crc, BitOf(Odd(v)), rest);
    ShiftApart(Xor(crc, BitOf(Odd(v))), rest);
  }

  function Shifts(crc: bv32, n: nat): bv32
    decreases n
  {
    if n == 0 then crc else Shifts(Shift(crc), n - 1)
  }

  function Halves(v: bv32, n: nat): bv32
    decreases n
  {
    if n == 0 then v else Halves(Half(v), n - 1)
  }

  /** Bits may be fed one by one or all be put into the register beforehand. */
  lemma {:induction false} FeedsAreShifts(crc: bv32, v: bv32, n: nat)
    ensures Shifts(Xor(crc, v), n) == Xor(FeedAll(crc, LowBits(v, n)), Halves(v, n))
    decreases n
  {
    hide Shift, Feed, Xor, Half, Odd;
    if n != 0 {
      FeedStep(crc, v);
      FeedsAreShifts(Feed(crc, Odd(v)), Half(v), n - 1);
      assert LowBits(v, n)[1..] == LowBits(Half(v), n - 1);
    }
  }

  predicate LowBitsClear(y: bv32, n: nat)
    decreases n
  {
    n == 0 || (!Odd(y) && LowBitsClear(Half(y), n - 1))
  }

  /** Only the low bits of the register ever meet the polynomial. */
  lemma {:induction false} ShiftsApart(x: bv32, y: bv32, n: nat)
    requires LowBitsClear(y, n)
    ensures Shifts(Xor(x, y), n) == Xor(Shifts(x, n), Halves(y, n))
    decreases n
  {
    hide Shift, Xor, Half, Odd;
    if n != 0 {
      ShiftApart(x, y);
      ShiftsApart(Shift(x), Half(y), n - 1);
    }
  }

  lemma {:induction false} EightShifts(crc: bv32)
    ensures Shifts(crc, 8) == Shift8(crc)
  {
    hide Shift;
  }

  lemma {:induction false} EightHalves(v: bv32)
    ensures Halves(v, 8) == v >> 8
  {
    hide *;
    HalvesUnfold(v);
    HalvesShift(v);
  }

  lemma {:induction false} HalvesUnfold(v: bv32)
    ensures Halves(v, 8) == Half(Half(Half(Half(Half(Half(Half(Half(v))))))))
  {
    hide Half;
  }

  lemma HalvesShift(v: bv32)
    ensures Half(Half(Half(Half(Half(Half(Half(Half(v)))))))) == v >> 8
  {
  }

  lemma {:induction false} HighBytes(y: bv32)
    requires y & 0xFF == 0
    ensures LowBitsClear(y, 8)
  {
    HighBits(y);
    hide Half, Odd;
  }

  lemma HighBits(y: bv32)
    requires y & 0xFF == 0
    ensures !Odd(y) && !Odd(Half(y)) && !Odd(Half(Half(y))) && !Odd(Half(Half(Half(y))))
    ensures !Odd(Half(Half(Half(Half(y))))) && !Odd(Half(Half(Half(Half(Half(y))))))
    ensures !Odd(Half(Half(Half(Half(Half(Half(y))))))) && !Odd(Half(Half(Half(Half(Half(Half(Half(y))))))))
  {
  }

  lemma IndexIsLowByte(crc: bv32, b: bv8)
    ensures ((crc & 0xFF) as bv8 ^ b) as bv32 == Xor(crc, b as bv32) & 0xFF
  {
  }

  lemma HighBytesStay(crc: bv32, b: bv8)
    ensures (Xor(crc, b as bv32) & 0xFFFF_FF00) >> 8 == crc >> 8
  {
  }

  lemma SplitByte(w: bv32)
    ensures w == Xor(w & 0xFF, w & 0xFFFF_FF00) && (w & 0xFFFF_FF00) & 0xFF == 0
  {
  }

  lemma XorZero(x: bv32)
    ensures Xor(x, 0) == x
  {
  }

  lemma {:induction false} EightFeeds(crc: bv32, v: bv32, low: bv32, high: bv32)
    requires Xor(crc, v) == Xor(low, high) && Halves(v, 8) == 0 && LowBitsClear(high, 8)
    ensures FeedAll(crc, LowBits(v, 8)) == Xor(Halves(high, 8), Shift8(low))
  {
    hide *;
    FeedsAreShifts(crc, v, 8);
    XorZero(FeedAll(crc, LowBits(v, 8)));
    ShiftsApart(low, high, 8);
    EightShifts(low);
    XorCommutes(Shift8(low), Halves(high, 8));
  }

  /** One table step feeds the eight bits of a byte. */
  lemma ByteAtATime(crc: bv32, b: bv8)
    ensures FeedAll(crc, LowBits(b as bv32, 8)) == Xor(crc >> 8, CrcTable((crc & 0xFF) as bv8 ^ b))
  {
    hide *;
    var v, w := b as bv32, Xor(crc, b as bv32);
    SplitByte(w);
    HighBytes(w & 0xFFFF_FF00);
    EightHalves(v);
    ByteIsShort(b);
    EightHalves(w & 0xFFFF_FF00);
    HighBytesStay(crc, b);
    IndexIsLowByte(crc, b);
    EightFeeds(crc, v, w & 0xFF, w & 0xFFFF_FF00);
  }

  lemma ByteIsShort(b: bv8)
    ensures b as bv32 >> 8 == 0
  {
  }

  function RegisterAfter(bs: seq<bv8>): bv32 { FeedAll(0xFFFF_FFFF, MessageBits(bs)) }

  lemma RegisterFedByte(pt: seq<bv8>, at: nat)
    requires at < |pt|
    ensures RegisterAfter(pt[..at + 1]) == FeedAll(RegisterAfter(pt[..at]), LowBits(pt[at] as bv32, 8))
  {
    hide FeedAll, LowBits;
    FeedJoin(0xFFFF_FFFF, MessageBits(pt[..at]), LowBits(pt[at] as bv32, 8));
    assert pt[..at + 1][..at] == pt[..at];
  }

  lemma OneMoreByte(pt: seq<bv8>, at: nat)
    requires at < |pt|
    ensures var crc := RegisterAfter(pt[..at]);
            RegisterAfter(pt[..at + 1]) == Xor(crc >> 8, CrcTable((crc & 0xFF) as bv8 ^ pt[at]))
  {
    hide *;
    RegisterFedByte(pt, at);
    ByteAtATime(RegisterAfter(pt[..at]), pt[at]);
  }

  /** The table-driven loop computes CRC-32. */
  method CalCrc(pt: seq<bv8>) returns (crc: bv32)
    ensures crc == Crc32(MessageBits(pt))
  {
    hide RegisterAfter, Xor, CrcTable;
    crc := 0xFFFF_FFFF;
    var size, at := |pt|, 0;
    assert RegisterAfter([]) == 0xFFFF_FFFF by { NoBytes(); }
    while size != 0
      invariant 0 <= at <= |pt| && at + size == |pt|
      invariant crc == RegisterAfter(pt[..at])
      decreases size
    {
      OneMoreByte(pt, at);
      crc := Xor(crc >> 8, CrcTable((crc & 0xFF) as bv8 ^ pt[at]));
      at := at + 1;
      size := size - 1;
    }
    assert pt[..at] == pt;
    crc := Xor(crc, 0xFFFF_FFFF);
    CrcOfRegister(pt);
  }

  lemma NoBytes()
    ensures RegisterAfter([]) == 0xFFFF_FFFF
  {
  }

  lemma {:induction false} CrcOfRegister(bs: seq<bv8>)
    ensures Crc32(MessageBits(bs)) == Xor(RegisterAfter(bs), 0xFFFF_FFFF)
  {
  }

  // ----- What the CRC detects -----

  predicate High(d: bv32, left: bv6) { left < 32 && d >> left != 0 }

  /** Two registers whose difference shows above the lowest `left` bits. */
  predicate Apart(a: bv32, b: bv32, left: bv6) { High(Xor(a, b), left) }

  lemma {:induction false} StaysApart(a: bv32, b: bv32, v: seq<bool>, w: seq<bool>, left: bv6)
    requires |v| == |w| <= left as nat && Apart(a, b, left)
    ensures FeedAll(a, v) != FeedAll(b, w)
    decreases |v|
  {
    hide Feed, Apart;
    if v == [] {
      DifferentIfApart(a, b, left);
    } else {
      FeedKeepsApart(a, b, v[0], w[0], left);
      StaysApart(Feed(a, v[0]), Feed(b, w[0]), v[1..], w[1..], left - 1);
    }
  }

  lemma DifferentIfApart(a: bv32, b: bv32, left: bv6)
    requires Apart(a, b, left)
    ensures a != b
  {
  }

  lemma ShiftLinear(x: bv32, y: bv32)
    ensures Shift(Xor(x, y)) == Xor(Shift(x), Shift(y))
  {
    XorZero(Half(x));
    XorCancels(POLYNOMIAL);
    hide Xor, Half, Odd;
    HalfLaws(x, y);
    OddLaws(x, y);
    XorSwaps(Half(x), POLYNOMIAL, Half(y), POLYNOMIAL);
    XorAssociates(Half(x), Half(y), POLYNOMIAL);
    XorCommutes(Half(y), POLYNOMIAL);
    XorAssociates(Half(x), POLYNOMIAL, Half(y));
    XorZero(Xor(Half(x), Half(y)));
  }

  lemma XorCancels(x: bv32)
    ensures Xor(x, x) == 0
  {
  }

  lemma XorSwaps(a: bv32, b: bv32, c: bv32, d: bv32)
    ensures Xor(Xor(a, b), Xor(c, d)) == Xor(Xor(a, c), Xor(b, d))
  {
    hide Xor;
    XorAssociates(a, b, Xor(c, d));
    XorAssociates(b, c, d);
    XorCommutes(b, c);
    XorAssociates(c, b, d);
    XorAssociates(a, c, Xor(b, d));
  }

  lemma HighBitStays(d: bv32, bit: bool, left: bv6)
    requires left != 0 && High(d, left)
    ensures High(Shift(Xor(d, BitOf(bit))), left - 1)
  {
  }

  lemma BitDifference(v: bool, w: bool)
    ensures Xor(BitOf(v), BitOf(w)) == BitOf(v != w)
  {
  }

  lemma FeedKeepsApart(a: bv32, b: bv32, v: bool, w: bool, left: bv6)
    requires Apart(a, b, left) && left != 0
    ensures Apart(Feed(a, v), Feed(b, w), left - 1)
  {
    hide Shift, Xor, BitOf, High;
    BitDifference(v, w);
    XorSwaps(a, BitOf(v), b, BitOf(w));
    ShiftLinear(Xor(a, BitOf(v)), Xor(b, BitOf(w)));
    HighBitStays(Xor(a, b), v != w, left);
  }

  lemma FirstDifference(crc: bv32, v: bool, w: bool)
    requires v != w
    ensures Apart(Feed(crc, v), Feed(crc, w), 31)
  {
  }

  /** Within 32 bits every difference reaches the register. */
  lemma {:induction false} BurstReachesRegister(crc: bv32, v: seq<bool>, w: seq<bool>)
    requires |v| == |w| <= 32 && v != w
    ensures FeedAll(crc, v) != FeedAll(crc, w)
    decreases |v|
  {
    hide Feed, Apart;
    if v[0] == w[0] {
      assert v == [v[0]] + v[1..] && w == [w[0]] + w[1..];
      BurstReachesRegister(Feed(crc, v[0]), v[1..], w[1..]);
    } else {
      FirstDifference(crc, v[0], w[0]);
      StaysApart(Feed(crc, v[0]), Feed(crc, w[0]), v[1..], w[1..], 31);
    }
  }

  lemma FeedInjective(a: bv32, b: bv32, bit: bool)
    requires Feed(a, bit) == Feed(b, bit)
    ensures a == b
  {
  }

  lemma {:induction false} RegistersStayDifferent(a: bv32, b: bv32, rest: seq<bool>)
    requires a != b
    ensures FeedAll(a, rest) != FeedAll(b, rest)
    decreases |rest|
  {
    hide Feed;
    if rest != [] {
      if Feed(a, rest[0]) == Feed(b, rest[0]) {
        FeedInjective(a, b, rest[0]);
      }
      RegistersStayDifferent(Feed(a, rest[0]), Feed(b, rest[0]), rest[1..]);
    }
  }

  /** Two messages that differ, and only within 32 consecutive bits, have different
      CRCs: every error burst of up to 32 bits is detected. */
  lemma BurstIsDetected(before: seq<bool>, v: seq<bool>, w: seq<bool>, after: seq<bool>)
    requires |v| == |w| <= 32 && v != w
    ensures Crc32(before + v + after) != Crc32(before + w + after)
  {
    var crc := FeedAll(0xFFFF_FFFF, before);
    FeedJoin(0xFFFF_FFFF, before, v);
    FeedJoin(0xFFFF_FFFF, before, w);
    FeedJoin(0xFFFF_FFFF, before + v, after);
    FeedJoin(0xFFFF_FFFF, before + w, after);
    BurstReachesRegister(crc, v, w);
    RegistersStayDifferent(FeedAll(crc, v), FeedAll(crc, w), after);
  }

  // ----- The CRC behind its message -----

  /** What the register holds after a message and its CRC. */
  const RESIDUE: bv32 := 0xDEBB_20E3

  lemma ShiftInjective(a: bv32, b: bv32)
    requires Shift(a) == Shift(b)
    ensures a == b
  {
  }

  lemma {:induction false} ShiftsInjective(a: bv32, b: bv32, n: nat)
    requires Shifts(a, n) == Shifts(b, n)
    ensures a == b
    decreases n
  {
    hide Shift;
    if n > 0 {
      ShiftsInjective(Shift(a), Shift(b), n - 1);
      ShiftInjective(a, b);
    }
  }

  lemma {:induction false} ShiftsJoin(a: bv32, m: nat, n: nat)
    ensures Shifts(a, m + n) == Shifts(Shifts(a, m), n)
    decreases m
  {
    hide Shift;
    if m > 0 {
      ShiftsJoin(Shift(a), m - 1, n);
    }
  }

  lemma MoreShifts(a: bv32, n: nat)
    ensures Shifts(a, 8 + n) == Shifts(Shift8(a), n)
  {
    hide Shift8, Shifts;
    ShiftsJoin(a, 8, n);
    EightShifts(a);
  }

  lemma OnesShift8()
    ensures Shift8(0xFFFF_FFFF) == 0x2DFD_1072 && Shift8(0x2DFD_1072) == 0xBE26_ED00
    ensures Shift8(0xBE26_ED00) == 0x00BE_26ED && Shift8(0x00BE_26ED) == RESIDUE
  {
  }

  lemma OnesLeaveResidue()
    ensures Shifts(0xFFFF_FFFF, 32) == RESIDUE
  {
    hide Shift8, Shift;
    OnesShift8();
    MoreShifts(0xFFFF_FFFF, 24);
    MoreShifts(0x2DFD_1072, 16);
    MoreShifts(0xBE26_ED00, 8);
    MoreShifts(0x00BE_26ED, 0);
  }

  lemma {:induction false} HalvesJoin(v: bv32, m: nat, n: nat)
    ensures Halves(v, m + n) == Halves(Halves(v, m), n)
    decreases m
  {
    hide Half;
    if m > 0 {
      HalvesJoin(Half(v), m - 1, n);
    }
  }

  lemma AllHalves(v: bv32)
    ensures Halves(v, 32) == 0
  {
    hide Halves;
    var w := Halves(v, 8);
    var x := Halves(w, 8);
    var y := Halves(x, 8);
    HalvesJoin(v, 8, 24);
    HalvesJoin(w, 8, 16);
    HalvesJoin(x, 8, 8);
    EightHalves(v);
    EightHalves(w);
    EightHalves(x);
    EightHalves(y);
  }

  lemma ComplementFills(r: bv32, v: bv32)
    ensures Xor(r, v) == 0xFFFF_FFFF <==> v == Complement(r)
  {
    hide Xor;
    XorAssociates(r, r, v);
    XorAssociates(r, r, 0xFFFF_FFFF);
    XorCancels(r);
    XorCommutes(0, v);
    XorCommutes(0, 0xFFFF_FFFF);
    XorZero(v);
    XorZero(0xFFFF_FFFF);
  }

  /** Feeding 32 more bits behind a message, lowest first, leaves the residue exactly when
      they are its CRC. */
  lemma TrailerIsChecked(bits: seq<bool>, v: bv32)
    ensures FeedAll(0xFFFF_FFFF, bits + LowBits(v, 32)) == RESIDUE <==> v == Crc32(bits)
  {
    hide Xor, Complement, Shifts, Halves, LowBits;
    var r := FeedAll(0xFFFF_FFFF, bits);
    FeedJoin(0xFFFF_FFFF, bits, LowBits(v, 32));
    FeedsAreShifts(r, v, 32);
    AllHalves(v);
    XorZero(FeedAll(r, LowBits(v, 32)));
    OnesLeaveResidue();
    ComplementFills(r, v);
    if Shifts(Xor(r, v), 32) == RESIDUE {
      ShiftsInjective(Xor(r, v), 0xFFFF_FFFF, 32);
    }
  }

  /** The register starts with what it is complemented with in the end. */
  lemma NothingHasCrcZero()
    ensures Crc32([]) == 0
  {
  }

  /** Bit j of a byte, the lowest being bit 0. */
  predicate BitAt(b: bv8, j: nat)
    requires j < 8
  {
    match j
    case 0 => b & 0x01 != 0 case 1 => b & 0x02 != 0 case 2 => b & 0x04 != 0 case 3 => b & 0x08 != 0
    case 4 => b & 0x10 != 0 case 5 => b & 0x20 != 0 case 6 => b & 0x40 != 0 case 7 => b & 0x80 != 0
  }

  lemma {:induction false} LowBitAt(v: bv32, n: nat, j: nat)
    requires j < n
    ensures LowBits(v, n)[j] == Odd(Halves(v, j))
    decreases j
  {
    hide Odd, Half;
    if j > 0 {
      LowBitAt(Half(v), n - 1, j - 1);
    }
  }

  lemma HalfOfByte(b: bv8)
    ensures Half(b as bv32) == (b >> 1) as bv32
  {
  }

  lemma LowestBit(b: bv8)
    ensures Odd(b as bv32) == BitAt(b, 0)
  {
  }

  lemma NextBit(b: bv8, j: nat)
    requires 0 < j < 8
    ensures BitAt(b >> 1, j - 1) == BitAt(b, j)
  {
  }

  lemma {:induction false} BitOfByte(b: bv8, j: nat)
    requires j < 8
    ensures Odd(Halves(b as bv32, j)) == BitAt(b, j)
    decreases j
  {
    hide Odd, Half, BitAt;
    if j == 0 {
      LowestBit(b);
    } else {
      HalfOfByte(b);
      BitOfByte(b >> 1, j - 1);
      NextBit(b, j);
    }
  }

  lemma {:induction false} BitCount(bs: seq<bv8>)
    ensures |MessageBits(bs)| == 8 * |bs|
  {
    hide LowBits;
    if bs != [] {
      BitCount(bs[..|bs| - 1]);
    }
  }

  lemma JoinedBits(before: seq<bool>, last: seq<bool>, n: nat, i: nat, j: nat)
    requires |before| == 8 * n && |last| == 8 && i <= n && j < 8
    ensures (before + last)[8 * i + j] == if i < n then before[8 * i + j] else last[j]
  {
  }

  /** The bytes are sent in their order, and of each byte the lowest bit first. */
  lemma {:induction false} BitOrder(bs: seq<bv8>, i: nat, j: nat)
    requires i < |bs| && j < 8
    ensures |MessageBits(bs)| == 8 * |bs| && MessageBits(bs)[8 * i + j] == BitAt(bs[i], j)
    decreases |bs|
  {
    hide LowBits, BitAt, Odd, Halves;
    var n := |bs| - 1;
    BitCount(bs);
    BitCount(bs[..n]);
    JoinedBits(MessageBits(bs[..n]), LowBits(bs[n] as bv32, 8), n, i, j);
    if i < n {
      BitOrder(bs[..n], i, j);
    } else {
      LowBitAt(bs[n] as bv32, 8, j);
      BitOfByte(bs[n], j);
    }
  }
}
