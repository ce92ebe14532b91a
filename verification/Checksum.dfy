/** The 16-bit one's complement checksums, eager and deferred. */
module Checksum {
  import opened Basics

  // The split sum of TCP and UDP over IPv6 and the eagerly folded sum of the file transfer
  // protocol are both measured against the end-around-carry sum of RFC 1071.

  type Word = w: nat | w < 0x1_0000

  const UINT32: nat := 0x1_0000_0000

  // ----- RFC 1071 -----

  /** One's complement addition: the carry out of the top bit is added at the bottom. */
  function OnesAdd(a: Word, b: Word): Word {
    if a + b > 0xFFFF then a + b - 0xFFFF else a + b
  }

  function OnesSum(ws: seq<Word>): Word {
    if ws == [] then 0 else OnesAdd(OnesSum(ws[..|ws| - 1]), ws[|ws| - 1])
  }

  function Complement(w: Word): Word { 0xFFFF - w }

  function WordOf(high: nat, low: nat): Word
    requires high < 256 && low < 256
  {
    256 * high + low
  }

  /** Adjacent bytes paired to big-endian words, the last one padded with a zero byte. */
  function Words(bs: seq<Byte>): seq<Word> {
    seq((|bs| + 1) / 2, i requires 0 <= i < (|bs| + 1) / 2 =>
      WordOf(bs[2 * i], if 2 * i + 1 < |bs| then bs[2 * i + 1] else 0))
  }

  // ----- Sums that fold their carries later -----

  function Total(ws: seq<Word>): nat {
    if ws == [] then 0 else Total(ws[..|ws| - 1]) + ws[|ws| - 1]
  }

  /** What is left of a sum when every carry has been added back. */
  function Folded(sum: nat): Word { if sum == 0 then 0 else (sum - 1) % 0xFFFF + 1 }

  lemma FoldedAdds(a: nat, b: nat)
    ensures Folded(Folded(a) + b) == Folded(a + b)
  {
  }

  lemma {:induction false} OnesSumIsFolded(ws: seq<Word>)
    ensures OnesSum(ws) == Folded(Total(ws))
  {
    if ws != [] {
      var front, last := ws[..|ws| - 1], ws[|ws| - 1];
      OnesSumIsFolded(front);
      FoldedAdds(Total(front), last);
    }
  }

  lemma FoldOnce(s: nat)
    ensures Folded(s % 0x1_0000 + s / 0x1_0000) == Folded(s)
  {
    var q, r := s / 0x1_0000, s % 0x1_0000;
    assert s == q + r + q * 0xFFFF;
  }

  method CheckSum16(sum: nat) returns (checkSum: Word)
    requires sum < UINT32
    ensures checkSum == Complement(Folded(sum))
  {
    var s := sum;
    while s / 0x1_0000 != 0
      invariant Folded(s) == Folded(sum)
      decreases s
    {
      FoldOnce(s);
      s := s % 0x1_0000 + s / 0x1_0000;
    }
    checkSum := 0xFFFF - s;
  }

  /** The sum of the transfer protocol never holds more than one carry, whatever the
      length of the buffer. */
  method EftpChecksum(buf: seq<Word>) returns (checkSum: Word)
    ensures checkSum == Complement(OnesSum(buf))
  {
    var sum: nat, index := 0, 0;
    while index < |buf|
      invariant 0 <= index <= |buf| && sum <= 0xFFFF && sum == OnesSum(buf[..index])
    {
      sum := sum + buf[index];
      if sum / 0x1_0000 != 0 {
        sum := sum / 0x1_0000 + sum % 0x1_0000;
      }
      assert buf[..index + 1][..index] == buf[..index];
      index := index + 1;
    }
    assert buf[..|buf|] == buf;
    sum := sum / 0x1_0000 + sum % 0x1_0000;
    sum := sum + sum / 0x1_0000;
    checkSum := 0xFFFF - sum % 0x1_0000;
  }

  // ----- A message summed in chunks -----

  /** A UINT32 accumulator. */
  function Wrap(n: nat): (r: nat)
    ensures r < UINT32
  {
    n % 0x1_0000_0000
  }

  lemma WrapMultiple(n: nat, q: nat)
    ensures Wrap(n + q * 0x1_0000_0000) == Wrap(n)
  {
  }

  lemma WrapAdds(a: nat, b: nat)
    ensures Wrap(Wrap(a) + b) == Wrap(a + b) == Wrap(a + Wrap(b))
  {
    WrapMultiple(Wrap(a) + b, a / 0x1_0000_0000);
    WrapMultiple(a + Wrap(b), b / 0x1_0000_0000);
  }

  /** A byte counts as the high half of its word when its offset is even. */
  function Weighted(offset: nat, b: Byte): Word {
    if offset % 2 == 0 then WordOf(b, 0) else b
  }

  function ByteSum(offset: nat, bs: seq<Byte>): nat {
    if bs == [] then 0
    else ByteSum(offset, bs[..|bs| - 1]) + Weighted(offset + |bs| - 1, bs[|bs| - 1])
  }

  /** The accumulator when i bytes have been added to what was summed before. */
  function Partial(base: nat, offset: nat, bs: seq<Byte>, i: nat): (r: nat)
    requires i <= |bs|
    ensures r < UINT32
    ensures i == 0 ==> r == Wrap(base)
    ensures i == |bs| ==> r == Wrap(base + ByteSum(offset, bs))
  {
    assert bs[..|bs|] == bs;
    Wrap(base + ByteSum(offset, bs[..i]))
  }

  lemma OneMoreByte(base: nat, offset: nat, bs: seq<Byte>, i: nat)
    requires i < |bs|
    ensures Partial(base, offset, bs, i + 1) ==
            Wrap(Partial(base, offset, bs, i) + if (offset + i) % 2 == 0 then WordOf(bs[i], 0) else bs[i])
  {
    assert bs[..i + 1][..i] == bs[..i];
    WrapAdds(base + ByteSum(offset, bs[..i]), Weighted(offset + i, bs[i]));
  }

  lemma NothingSummed(offset: nat, bs: seq<Byte>)
    ensures Partial(0, offset, bs, 0) == 0 && Partial(0, offset, bs, |bs|) == Wrap(ByteSum(offset, bs))
  {
    hide ByteSum;
  }

  /** At an odd offset the first byte is read before the length is looked at: of an empty
      buffer it is the byte behind it. */
  function Stray(offset: nat, bs: seq<Byte>, behind: Byte): nat {
    if offset % 2 == 1 && bs == [] then behind else 0
  }

  /** EmsCalBufSum16. `behind` is what lies in memory behind the payload. */
  method BufSum16(offset: nat, payload: seq<Byte>, behind: Byte) returns (sum: nat)
    ensures sum == Wrap(ByteSum(offset, payload) + Stray(offset, payload, behind))
  {
    hide ByteSum, Wrap, WordOf, Partial;
    sum := 0;
    var index := 0;
    NothingSummed(offset, payload);
    if offset % 2 == 1 {
      if |payload| == 0 {
        EmptySum(offset);
        sum := Wrap(sum + behind);
        return;
      }
      OneMoreByte(0, offset, payload, index);
      sum := Wrap(sum + payload[index]);
      index := index + 1;
    }
    while index < |payload|
      invariant 0 <= index <= |payload|
      invariant sum == Partial(0, offset, payload, index)
      invariant index < |payload| ==> (offset + index) % 2 == 0
    {
      OneMoreByte(0, offset, payload, index);
      sum := Wrap(sum + WordOf(payload[index], 0));
      index := index + 1;
      if index < |payload| {
        OneMoreByte(0, offset, payload, index);
        sum := Wrap(sum + payload[index]);
        index := index + 1;
      }
    }
  }

  lemma EmptySum(offset: nat)
    ensures ByteSum(offset, []) == 0
  {
  }

  lemma {:induction false} ByteSumSplits(offset: nat, a: seq<Byte>, b: seq<Byte>)
    ensures ByteSum(offset, a + b) == ByteSum(offset, a) + ByteSum(offset + |a|, b)
  {
    if b == [] {
      assert a + b == a;
    } else {
      var i := |b| - 1;
      ByteSumSplits(offset, a, b[..i]);
      assert (a + b)[..|a| + i] == a + b[..i];
    }
  }

  /** The last byte starts a word, or completes the one before it. */
  lemma LastWord(bs: seq<Byte>)
    requires bs != []
    ensures var front, ws := bs[..|bs| - 1], Words(bs);
            var k := |ws| - 1;
            && |ws| == (|bs| + 1) / 2
            && (if |bs| % 2 == 1 then ws[..k] == Words(front) && ws[k] == WordOf(bs[|bs| - 1], 0)
                else |Words(front)| == |ws| && ws[..k] == Words(front)[..k] && ws[k] == Words(front)[k] + bs[|bs| - 1])
  {
  }

  lemma {:induction false} ByteSumIsWordTotal(bs: seq<Byte>)
    ensures ByteSum(0, bs) == Total(Words(bs))
  {
    if bs != [] {
      var front, ws := bs[..|bs| - 1], Words(bs);
      ByteSumIsWordTotal(front);
      LastWord(bs);
      hide Words;
    }
  }

  /** Section 8.1 of RFC 8200: both addresses, the length in four bytes, three zero
      bytes and the protocol number. */
  function PseudoHeader(local: seq<Byte>, remote: seq<Byte>, nh: Byte, len: nat): seq<Byte>
    requires |local| == |remote| == 16 && len < UINT32
  {
    local + remote + LengthBytes(len) + [0, 0, 0, nh]
  }

  function LengthBytes(len: nat): (bs: seq<Byte>)
    requires len < UINT32
    ensures |bs| == 4
  {
    var high, low := len / 0x1_0000, len % 0x1_0000;
    [high / 256, high % 256, low / 256, low % 256]
  }

  /** What EmsCalPHeaderSum16 adds up before its 32-bit accumulator wraps: the length
      goes in as one number. */
  function PHeaderTotal(local: seq<Byte>, remote: seq<Byte>, nh: Byte, len: nat): nat {
    ByteSum(0, local) + ByteSum(0, remote) + nh + len
  }

  /** The loop that adds one address to the accumulator. */
  method AddAddress(sum: nat, address: seq<Byte>) returns (r: nat)
    requires |address| == 16 && sum < UINT32
    ensures r == Wrap(sum + ByteSum(0, address))
  {
    hide ByteSum, WordOf, Partial;
    r := sum;
    var index := 0;
    while index < 16
      invariant 0 <= index <= 16 && index % 2 == 0 && r == Partial(sum, 0, address, index)
    {
      hide Wrap;
      OneMoreByte(sum, 0, address, index);
      r := Wrap(r + WordOf(address[index], 0));
      index := index + 1;
      OneMoreByte(sum, 0, address, index);
      r := Wrap(r + address[index]);
      index := index + 1;
    }
  }

  method PHeaderSum16(local: seq<Byte>, remote: seq<Byte>, nh: Byte, len: nat) returns (sum: nat)
    requires |local| == |remote| == 16 && len < UINT32
    ensures sum == Wrap(PHeaderTotal(local, remote, nh, len))
  {
    hide Wrap, ByteSum;
    sum := AddAddress(0, local);
    sum := AddAddress(sum, remote);
    var low, high := len % 256, len / 256 * 256;
    assert low + high == len;
    ghost var both := ByteSum(0, local) + ByteSum(0, remote);
    WrapAdds(ByteSum(0, local), ByteSum(0, remote));
    WrapAdds(both, nh);
    sum := Wrap(sum + nh);
    WrapAdds(both + nh, low);
    sum := Wrap(sum + low);
    WrapAdds(both + nh + low, high);
    sum := Wrap(sum + high);
  }

  function Chunks(header: seq<Byte>, options: seq<Byte>, payload: seq<Byte>,
                  optionsOk: bool, payloadOk: bool): seq<Byte> {
    header + (if optionsOk then options else []) + (if payloadOk then payload else [])
  }

  /** The accumulator when a whole message has been added to what was summed before. */
  function SumOnto(base: nat, message: seq<Byte>): (sum: nat)
    ensures sum < UINT32
  {
    Wrap(base + ByteSum(0, message))
  }

  /** What the code makes of a pseudo-header and a message. */
  function CodeChecksum(local: seq<Byte>, remote: seq<Byte>, nh: Byte, len: nat, message: seq<Byte>): Word {
    Complement(Folded(SumOnto(PHeaderTotal(local, remote, nh, len), message)))
  }

  /** The same with stray bytes in the sum. */
  function StrayChecksum(
    local: seq<Byte>, remote: seq<Byte>, nh: Byte, len: nat, message: seq<Byte>, stray: nat): Word
  {
    Complement(Folded(SumOnto(PHeaderTotal(local, remote, nh, len) + stray, message)))
  }

  /** The stray bytes of an options chunk and of a payload chunk. */
  function TcpStray(header: seq<Byte>, options: seq<Byte>, payload: seq<Byte>, optionsOk: bool, payloadOk: bool,
                    behindOptions: Byte, behindPayload: Byte): (stray: nat)
    ensures stray <= 510
  {
    (if optionsOk then Stray(|header|, options, behindOptions) else 0)
    + (if payloadOk then Stray(|Chunks(header, options, [], optionsOk, false)|, payload, behindPayload) else 0)
  }

  /** The checksum of TCP over IPv6 as it is put together from the pseudo-header and up
      to three chunks. */
  method Tcp6CheckSum(local: seq<Byte>, remote: seq<Byte>, tcpLen: nat,
                      header: seq<Byte>, options: seq<Byte>, payload: seq<Byte>, optionsOk: bool, payloadOk: bool,
                      behindOptions: Byte, behindPayload: Byte) returns (checkSum: Word)
    requires |local| == |remote| == 16 && tcpLen < UINT32
    requires |header| + |options| + |payload| < UINT32
    ensures checkSum == StrayChecksum(
              local, remote, 6, tcpLen, Chunks(header, options, payload, optionsOk, payloadOk),
              TcpStray(header, options, payload, optionsOk, payloadOk, behindOptions, behindPayload))
  {
    hide ByteSum, PHeaderTotal, Folded, Wrap, Chunks, SumOnto, Complement, Stray;
    FirstChunk(PHeaderTotal(local, remote, 6, tcpLen), header);
    ChunksJoin(header, options, payload, optionsOk, payloadOk);
    ghost var base := PHeaderTotal(local, remote, 6, tcpLen);
    ghost var stray := TcpStray(header, options, payload, optionsOk, payloadOk, behindOptions, behindPayload);
    ghost var before := Chunks(header, options, [], optionsOk, false);
    ghost var first := if optionsOk then Stray(|header|, options, behindOptions) else 0;
    var sum := PHeaderSum16(local, remote, 6, tcpLen);
    var offset := 0;
    sum, offset := AddBlock(sum, offset, header, 0, base, []);
    if optionsOk {
      sum, offset := AddBlock(sum, offset, options, behindOptions, base, header);
    }
    assert sum == SumOnto(base + first, before) && offset == |before|;
    if payloadOk {
      sum, offset := AddBlock(sum, offset, payload, behindPayload, base + first, before);
    }
    assert sum == SumOnto(base + stray, Chunks(header, options, payload, optionsOk, payloadOk));
    checkSum := CheckSum16(sum);
  }

  /** Chunks that are not empty are summed as one message, header first and payload last. */
  lemma WholePacket(local: seq<Byte>, remote: seq<Byte>, tcpLen: nat,
                    header: seq<Byte>, options: seq<Byte>, payload: seq<Byte>, behind: Byte)
    requires options != [] && payload != []
    ensures StrayChecksum(local, remote, 6, tcpLen, Chunks(header, options, payload, true, true),
                          TcpStray(header, options, payload, true, true, behind, behind))
            == CodeChecksum(local, remote, 6, tcpLen, header + options + payload)
  {
    hide ByteSum, PHeaderTotal, Folded, SumOnto;
  }

  lemma FirstChunk(base: nat, header: seq<Byte>)
    ensures SumOnto(base, []) == Wrap(base) && [] + header == header && Stray(0, header, 0) == 0
  {
  }

  lemma ChunksJoin(header: seq<Byte>, options: seq<Byte>, payload: seq<Byte>, optionsOk: bool, payloadOk: bool)
    ensures var before := Chunks(header, options, [], optionsOk, false);
            && before == (if optionsOk then header + options else header)
            && Chunks(header, options, payload, optionsOk, payloadOk) ==
                 (if payloadOk then before + payload else before)
  {
  }

  /** Adds one chunk to what stands before it in the message. */
  method AddBlock(sum: nat, offset: nat, chunk: seq<Byte>, behind: Byte, ghost base: nat, ghost before: seq<Byte>)
    returns (sum': nat, offset': nat)
    requires sum == SumOnto(base, before) && offset == |before|
    ensures sum' == SumOnto(base + Stray(offset, chunk, behind), before + chunk) && offset' == |before + chunk|
  {
    var blockSum := BufSum16(offset, chunk, behind);
    sum' := Wrap(sum + blockSum);
    offset' := offset + |chunk|;
    AddChunk(base, before, chunk, Stray(offset, chunk, behind));
  }

  lemma {:induction false} AddChunk(base: nat, before: seq<Byte>, chunk: seq<Byte>, stray: nat)
    ensures Wrap(Wrap(base + ByteSum(0, before)) + Wrap(ByteSum(|before|, chunk) + stray)) ==
            Wrap(base + stray + ByteSum(0, before + chunk))
  {
    hide Wrap, ByteSum;
    ByteSumSplits(0, before, chunk);
    WrapAdds(base + ByteSum(0, before), ByteSum(|before|, chunk) + stray);
    WrapAdds(base + ByteSum(0, before), Wrap(ByteSum(|before|, chunk) + stray));
  }

  /** UDP over IPv6 sums its packet as one chunk. */
  method Udp6CheckSum(local: seq<Byte>, remote: seq<Byte>, udpLen: nat, packet: seq<Byte>) returns (checkSum: Word)
    requires |local| == |remote| == 16 && udpLen < UINT32 && |packet| < UINT32
    ensures checkSum == CodeChecksum(local, remote, 17, udpLen, packet)
  {
    var sum := PHeaderSum16(local, remote, 17, udpLen);
    var blockSum := BufSum16(0, packet, 0);
    WrapAdds(PHeaderTotal(local, remote, 17, udpLen), ByteSum(0, packet));
    WrapAdds(PHeaderTotal(local, remote, 17, udpLen), Wrap(ByteSum(0, packet)));
    checkSum := CheckSum16(Wrap(sum + blockSum));
  }

  // ----- When a 32-bit accumulator is wide enough -----

  /** A wrapped accumulator folds to the right word exactly when it has not wrapped. */
  lemma FoldedWrap(n: nat)
    requires n < 0xFFFF * UINT32
    ensures Folded(Wrap(n)) == Folded(n) <==> n < UINT32
  {
    var q, r := n / 0x1_0000_0000, n % 0x1_0000_0000;
    assert n == q * 65537 * 0xFFFF + q + r;
  }

  lemma {:induction false} TotalBound(ws: seq<Word>)
    ensures Total(ws) <= |ws| * 0xFFFF
  {
    if ws != [] {
      TotalBound(ws[..|ws| - 1]);
    }
  }

  /** Section 2 of RFC 1071, "Deferred Carries": adding all words first and folding then
      gives what folding at each word gives, exactly while 32 bits hold the plain sum.
      They do for 65537 words, and they do not for 65538 words of ones. */
  lemma {:induction false} EagerFoldingMatchesDeferred(ws: seq<Word>)
    requires |ws| < UINT32
    ensures Complement(OnesSum(ws)) == Complement(Folded(Wrap(Total(ws)))) <==> Total(ws) < UINT32
    ensures |ws| <= 65537 ==> Total(ws) < UINT32
    ensures |ws| >= 65538 && AllOnes(ws) ==> Total(ws) >= UINT32
  {
    TotalBound(ws);
    OnesSumIsFolded(ws);
    FoldedWrap(Total(ws));
    if AllOnes(ws) {
      TotalOfOnes(ws);
    }
  }

  ghost predicate AllOnes(ws: seq<Word>) { forall i :: 0 <= i < |ws| ==> ws[i] == 0xFFFF }

  lemma {:induction false} TotalOfOnes(ws: seq<Word>)
    requires AllOnes(ws)
    ensures Total(ws) == |ws| * 0xFFFF
  {
    if ws != [] {
      TotalOfOnes(ws[..|ws| - 1]);
    }
  }

  // ----- The checksum of the packet -----

  lemma SameWeight(offset: nat, i: nat, b: Byte)
    requires offset % 2 == 0
    ensures Weighted(offset + i, b) == Weighted(i, b)
  {
    hide WordOf;
    assert (offset + i) % 2 == i % 2;
  }

  lemma {:induction false} EvenOffset(offset: nat, bs: seq<Byte>)
    requires offset % 2 == 0
    ensures ByteSum(offset, bs) == ByteSum(0, bs)
  {
    if bs != [] {
      hide Weighted;
      EvenOffset(offset, bs[..|bs| - 1]);
      SameWeight(offset, |bs| - 1, bs[|bs| - 1]);
    }
  }

  /** Adding the length as one number is as good as adding it word by word. */
  lemma PseudoHeaderTotal(local: seq<Byte>, remote: seq<Byte>, nh: Byte, len: nat, rest: nat)
    requires |local| == |remote| == 16 && len < UINT32
    ensures |PseudoHeader(local, remote, nh, len)| == 40
    ensures Folded(ByteSum(0, PseudoHeader(local, remote, nh, len)) + rest) ==
            Folded(PHeaderTotal(local, remote, nh, len) + rest)
  {
    PseudoHeaderSum(local, remote, nh, len);
    hide ByteSum, Folded;
    FoldedMultiple(ByteSum(0, PseudoHeader(local, remote, nh, len)) + rest, len / 0x1_0000);
  }

  lemma PseudoHeaderSum(local: seq<Byte>, remote: seq<Byte>, nh: Byte, len: nat)
    requires |local| == |remote| == 16 && len < UINT32
    ensures |PseudoHeader(local, remote, nh, len)| == 40
    ensures ByteSum(0, PseudoHeader(local, remote, nh, len)) + len / 0x1_0000 * 0xFFFF ==
            PHeaderTotal(local, remote, nh, len)
  {
    hide ByteSum;
    var tail: seq<Byte> := [0, 0, 0, nh];
    ByteSumSplits(0, local, remote);
    EvenOffset(16, remote);
    ByteSumSplits(0, local + remote, LengthBytes(len));
    LengthSum(len);
    ByteSumSplits(0, local + remote + LengthBytes(len), tail);
    FourBytes(36, tail);
  }

  lemma FoldedMultiple(n: nat, k: nat)
    requires n >= k
    ensures Folded(n + k * 0xFFFF) == Folded(n)
  {
  }

  lemma {:induction false} FourBytes(offset: nat, bs: seq<Byte>)
    requires offset % 2 == 0 && |bs| == 4
    ensures ByteSum(offset, bs) == WordOf(bs[0], bs[1]) + WordOf(bs[2], bs[3])
  {
    assert bs[..3][..2] == bs[..2] && bs[..2][..1] == bs[..1] && bs[..1][..0] == [];
    assert ByteSum(offset, bs[..1]) == WordOf(bs[0], 0);
    assert ByteSum(offset, bs[..2]) == WordOf(bs[0], bs[1]);
    assert ByteSum(offset, bs[..3]) == WordOf(bs[0], bs[1]) + WordOf(bs[2], 0);
  }

  lemma LengthSum(len: nat)
    requires len < UINT32
    ensures ByteSum(32, LengthBytes(len)) == len / 0x1_0000 + len % 0x1_0000
  {
    hide ByteSum;
    FourBytes(32, LengthBytes(len));
  }

  /** What RFC 1071 asks for: the complement of the one's complement sum of the words of
      the pseudo-header and the whole message. */
  function RfcChecksum(local: seq<Byte>, remote: seq<Byte>, nh: Byte, len: nat, message: seq<Byte>): Word
    requires |local| == |remote| == 16 && len < UINT32
  {
    Complement(OnesSum(Words(PseudoHeader(local, remote, nh, len) + message)))
  }

  lemma {:induction false} OnesSumSplits(a: seq<Byte>, b: seq<Byte>)
    requires |a| % 2 == 0
    ensures OnesSum(Words(a + b)) == Folded(ByteSum(0, a) + ByteSum(0, b))
  {
    hide *;
    OnesSumIsFolded(Words(a + b));
    ByteSumIsWordTotal(a + b);
    ByteSumSplits(0, a, b);
    EvenOffset(|a|, b);
  }

  lemma {:induction false} RfcChecksumIsFolded(
      local: seq<Byte>, remote: seq<Byte>, nh: Byte, len: nat, message: seq<Byte>)
    requires |local| == |remote| == 16 && len < UINT32
    ensures RfcChecksum(local, remote, nh, len, message) ==
            Complement(Folded(PHeaderTotal(local, remote, nh, len) + ByteSum(0, message)))
  {
    hide ByteSum, OnesSum, Words, Folded, PHeaderTotal, PseudoHeader, Complement;
    PseudoHeaderTotal(local, remote, nh, len, ByteSum(0, message));
    OnesSumSplits(PseudoHeader(local, remote, nh, len), message);
  }

  /** Whether a 32-bit sum with stray bytes in it folds to the right word: it has wrapped
      around as often as the stray bytes are worth, and is not 0 unless they are. */
  predicate RightDespite(total: nat, stray: nat) {
    var n := total + stray;
    n / UINT32 == stray && (n % UINT32 == 0 ==> stray == 0)
  }

  lemma SameFold(a: nat, b: nat)
    ensures Folded(a) == Folded(b) <==> (a == 0 <==> b == 0) && (a - b) % 0xFFFF == 0
  {
    if a > 0 && b > 0 {
      SameRest(a - 1, b - 1);
    }
  }

  lemma SameRest(a: nat, b: nat)
    ensures a % 0xFFFF == b % 0xFFFF <==> (a - b) % 0xFFFF == 0
  {
  }

  lemma SmallMultiple(x: int, k: int)
    requires -0xFFFF < x < 0xFFFF
    ensures (x - k * 0xFFFF) % 0xFFFF == 0 <==> x == 0
  {
  }

  /** Each wrap-around takes 2^32 away, which is 1 modulo 65535, so it makes up for a stray
      byte of 1. */
  lemma StrayBytesSpoil(total: nat, stray: nat)
    requires stray <= 510 && total + stray < 0xFFFF * UINT32
    ensures Folded(Wrap(total + stray)) == Folded(total) <==> RightDespite(total, stray)
    ensures total + stray < UINT32 ==> (RightDespite(total, stray) <==> stray == 0)
  {
    var n := total + stray;
    var q, r := n / 0x1_0000_0000, n % 0x1_0000_0000;
    assert r - total == stray - q - q * 65537 * 0xFFFF;
    hide Folded;
    SmallMultiple(stray - q, q * 65537);
    SameFold(r, total);
  }

  /** With stray bytes the checksum is the one of RFC 1071 exactly in that case, which is
      that they are 0 as long as 32 bits hold the sum. */
  lemma {:induction false} StrayChecksumIsRight(
      local: seq<Byte>, remote: seq<Byte>, nh: Byte, len: nat, message: seq<Byte>, stray: nat)
    requires |local| == |remote| == 16 && len < UINT32 && |message| < UINT32 && stray <= 510
    ensures var total := PHeaderTotal(local, remote, nh, len) + ByteSum(0, message);
            && (StrayChecksum(local, remote, nh, len, message, stray) == RfcChecksum(local, remote, nh, len, message)
                <==> RightDespite(total, stray))
            && (total + stray < UINT32 ==> (RightDespite(total, stray) <==> stray == 0))
  {
    hide ByteSum, Folded, RfcChecksum, Wrap, PHeaderTotal, RightDespite;
    var base := PHeaderTotal(local, remote, nh, len);
    RfcChecksumIsFolded(local, remote, nh, len, message);
    TotalIsBounded(local, remote, nh, len, message);
    StrayBytesSpoil(base + ByteSum(0, message), stray);
    assert SumOnto(base + stray, message) == Wrap(base + ByteSum(0, message) + stray);
  }

  /** An empty payload behind one byte of header: whatever follows it in memory, unless it
      is 0, makes the checksum a wrong one. But a sum of 2^32 + 5 comes right with a stray
      byte of 1. */
  lemma {:induction false} EmptyPayloadBehindOddLength(local: seq<Byte>, remote: seq<Byte>, b: Byte, behind: Byte)
    requires |local| == |remote| == 16
    ensures TcpStray([b], [], [], false, true, 0, behind) == behind && Chunks([b], [], [], false, true) == [b]
    ensures StrayChecksum(local, remote, 6, 1, [b], behind) == RfcChecksum(local, remote, 6, 1, [b]) <==> behind == 0
    ensures RightDespite(0x1_0000_0005, 1)
  {
    hide Folded, RfcChecksum, Wrap, PHeaderTotal, RightDespite, SumOnto, StrayChecksum;
    SmallTotal(local, remote, b);
    StrayChecksumIsRight(local, remote, 6, 1, [b], behind);
    CarryMakesUp();
  }

  lemma CarryMakesUp()
    ensures RightDespite(0x1_0000_0005, 1)
  {
  }

  lemma {:induction false} SmallTotal(local: seq<Byte>, remote: seq<Byte>, b: Byte)
    requires |local| == |remote| == 16
    ensures PHeaderTotal(local, remote, 6, 1) + ByteSum(0, [b]) + 255 < UINT32
  {
    hide ByteSum;
    ByteSumBound(local);
    ByteSumBound(remote);
    ByteSumBound([b]);
  }

  /** The chunked checksum is the one of RFC 1071 exactly when the accumulator does not
      wrap. */
  lemma {:induction false} SplitChecksumIsWholeChecksum(
      local: seq<Byte>, remote: seq<Byte>, nh: Byte, len: nat, message: seq<Byte>)
    requires |local| == |remote| == 16 && len < UINT32 && |message| < UINT32
    ensures CodeChecksum(local, remote, nh, len, message) == RfcChecksum(local, remote, nh, len, message) <==>
            PHeaderTotal(local, remote, nh, len) + ByteSum(0, message) < UINT32
  {
    hide ByteSum, Folded, RfcChecksum, Wrap, PHeaderTotal;
    var total := PHeaderTotal(local, remote, nh, len) + ByteSum(0, message);
    RfcChecksumIsFolded(local, remote, nh, len, message);
    TotalIsBounded(local, remote, nh, len, message);
    FoldedWrap(total);
    assert CodeChecksum(local, remote, nh, len, message) == Complement(Folded(Wrap(total)));
  }

  /** It does not wrap for any message of up to 130000 bytes. */
  lemma {:induction false} TotalIsBounded(local: seq<Byte>, remote: seq<Byte>, nh: Byte, len: nat, message: seq<Byte>)
    requires |local| == |remote| == 16 && len < UINT32 && |message| < UINT32
    ensures PHeaderTotal(local, remote, nh, len) + ByteSum(0, message) + 510 < 0xFFFF * UINT32
    ensures len == |message| <= 130000 ==> PHeaderTotal(local, remote, nh, len) + ByteSum(0, message) < UINT32
  {
    hide ByteSum;
    ByteSumBound(local);
    ByteSumBound(remote);
    ByteSumBound(message);
  }

  lemma {:induction false} ByteSumBound(bs: seq<Byte>)
    ensures ByteSum(0, bs) <= (|bs| + 1) / 2 * 0xFFFF
  {
    ByteSumIsWordTotal(bs);
    TotalBound(Words(bs));
  }

  /** The message with a checksum written into the field at k. */
  function Stored(message: seq<Byte>, k: nat, checkSum: Word): seq<Byte>
    requires k + 1 < |message|
  {
    message[k := checkSum / 256][k + 1 := checkSum % 256]
  }

  lemma {:induction false} ByteReplaced(bs: seq<Byte>, k: nat, b: Byte)
    requires k < |bs|
    ensures ByteSum(0, bs[k := b]) + Weighted(k, bs[k]) == ByteSum(0, bs) + Weighted(k, b)
  {
    var i := |bs| - 1;
    if k < i {
      ByteReplaced(bs[..i], k, b);
      assert bs[k := b][..i] == bs[..i][k := b];
    } else {
      assert bs[k := b][..i] == bs[..i];
    }
  }

  lemma {:induction false} StoredSum(message: seq<Byte>, k: nat, checkSum: Word)
    requires k % 2 == 0 && k + 1 < |message| && message[k] == message[k + 1] == 0
    ensures ByteSum(0, Stored(message, k, checkSum)) == ByteSum(0, message) + checkSum
  {
    hide ByteSum;
    ByteReplaced(message, k, checkSum / 256);
    ByteReplaced(message[k := checkSum / 256], k + 1, checkSum % 256);
  }

  lemma {:induction false} CodeChecksumUnwrapped(
      local: seq<Byte>, remote: seq<Byte>, nh: Byte, len: nat, message: seq<Byte>)
    requires PHeaderTotal(local, remote, nh, len) + ByteSum(0, message) < UINT32
    ensures CodeChecksum(local, remote, nh, len, message) ==
            Complement(Folded(PHeaderTotal(local, remote, nh, len) + ByteSum(0, message)))
  {
    hide ByteSum, Folded, PHeaderTotal, Complement;
  }

  /** A receiver that sums the packet with its checksum in place finds all ones. */
  lemma {:induction false} StoredChecksumVerifies(
      local: seq<Byte>, remote: seq<Byte>, nh: Byte, len: nat, message: seq<Byte>, k: nat)
    requires |local| == |remote| == 16 && len < UINT32
    requires k % 2 == 0 && k + 1 < |message| && message[k] == message[k + 1] == 0
    requires PHeaderTotal(local, remote, nh, len) + ByteSum(0, message) < UINT32
    ensures var sent := Stored(message, k, CodeChecksum(local, remote, nh, len, message));
            RfcChecksum(local, remote, nh, len, sent) == 0
  {
    hide *;
    var c := CodeChecksum(local, remote, nh, len, message);
    var sent := Stored(message, k, c);
    var total := PHeaderTotal(local, remote, nh, len) + ByteSum(0, message);
    CodeChecksumUnwrapped(local, remote, nh, len, message);
    StoredSum(message, k, c);
    RfcChecksumIsFolded(local, remote, nh, len, sent);
    FoldedComplement(total);
  }

  lemma FoldedComplement(n: nat)
    ensures Complement(Folded(n + Complement(Folded(n)))) == 0
  {
  }
}
