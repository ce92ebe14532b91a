/** DHCP options (section 2 of RFC 2132) as the packet tester unpacks and compares them. */
module Dhcp {
  import opened Basics
  import opened Turns

  const PAD: Byte := 0
  const END: Byte := 255

  /** One option; its length byte is the length of the value. */
  datatype Tlv = Tlv(code: Byte, value: seq<Byte>)

  // ----- What unpacking yields -----

  /** `Runaway` stands for every buffer in which a length byte of 128 or more is met: it
      is read as a negative number, so the cursor does not get behind the option. */
  datatype Outcome = Options(list: seq<Tlv>) | Malformed | Runaway

  function Pads(bs: seq<Byte>): (n: nat)
    ensures n <= |bs|
    ensures forall i :: 0 <= i < n ==> bs[i] == PAD
    ensures n < |bs| ==> bs[n] != PAD
  {
    if bs == [] || bs[0] != PAD then 0 else 1 + Pads(bs[1..])
  }

  function Preceded(option: Tlv, outcome: Outcome): Outcome {
    if outcome.Options? then Options([option] + outcome.list) else outcome
  }

  /** What stands at the front of a buffer. */
  datatype Front = NoMore | Broken | Long | Found(start: nat, end: nat)

  function FirstOption(bs: seq<Byte>): (f: Front)
    ensures f.Found? ==> f.start + 2 <= f.end <= |bs|
  {
    var p := Pads(bs);
    if p == |bs| || bs == [END] then NoMore
    else if |bs| - p <= 2 then Broken
    else if bs[p + 1] >= 128 then Long
    else if p + 2 + bs[p + 1] > |bs| then Broken
    else Found(p, p + 2 + bs[p + 1])
  }

  function OptionAt(bs: seq<Byte>, start: nat, end: nat): Tlv
    requires start + 2 <= end <= |bs|
  {
    Tlv(bs[start], bs[start + 2..end])
  }

  function Unpacked(bs: seq<Byte>): Outcome
    decreases |bs|
  {
    match FirstOption(bs)
    case NoMore => Options([])
    case Broken => Malformed
    case Long => Runaway
    case Found(start, end) => Preceded(OptionAt(bs, start, end), Unpacked(bs[end..]))
  }

  // ----- The cursor -----

  function Signed(b: Byte): int { if b < 128 then b else b - 256 }

  datatype Cursor = Cursor(option: Option<nat>, at: int, remain: int)

  /** What GetNextOption finds from `at` on when it is told that `remain` bytes are left.
      Skipped pads are taken off `remain` even when nothing is found. */
  function NextOption(buf: seq<Byte>, at: nat, remain: int): Cursor
    requires Readable(buf, at, remain)
  {
    if remain <= 0 then Cursor(None, at, remain)
    else
      var pads := Min(Pads(buf[at..]), remain);
      var o, r := at + pads, remain - pads;
      if r <= 2 then Cursor(None, at, r)
      else if Signed(buf[o + 1]) > r then Cursor(None, at, r)
      else Cursor(Some(o), o + 2 + Signed(buf[o + 1]), r - 2 - Signed(buf[o + 1]))
  }

  /** The bytes that the cursor looks at are in the buffer. */
  predicate Readable(buf: seq<Byte>, at: nat, remain: int) {
    remain > 0 ==> at <= |buf| && (remain <= |buf| - at || at + Pads(buf[at..]) + 1 < |buf|)
  }

  method GetNextOption(buf: seq<Byte>, at: nat, remain: int) returns (c: Cursor)
    requires Readable(buf, at, remain)
    ensures c == NextOption(buf, at, remain)
  {
    var option, r := at, remain;
    if r <= 0 {
      return Cursor(None, at, r);
    }
    while r > 0
      invariant at <= option <= |buf| && option - at == remain - r <= Min(Pads(buf[at..]), remain)
      decreases r
    {
      if buf[option] == PAD {
        option := option + 1;
        r := r - 1;
      } else {
        break;
      }
    }
    if r <= 2 {
      return Cursor(None, at, r);
    }
    var len := Signed(buf[option + 1]);
    if len > r {
      return Cursor(None, at, r);
    }
    return Cursor(Some(option), option + 2 + len, r - 2 - len);
  }

  /** A cursor that has all the bytes behind it left finds what is in front; an option
      that ends behind the buffer leaves it below zero. */
  lemma CursorFindsFront(buf: seq<Byte>, at: nat)
    requires at <= |buf| && FirstOption(buf[at..]) != Long
    ensures var c := NextOption(buf, at, |buf| - at);
            match FirstOption(buf[at..])
            case NoMore => c.option == None && c.at == at && (c.remain == 0 || (c.remain == 1 && buf[at] == END))
            case Found(start, end) => c == Cursor(Some(at + start), at + end, |buf| - at - end)
            case Broken => if c.option.Some? then c.remain < 0 && c.at == |buf| - c.remain
                           else c.at == at && c.remain > 0 && (c.remain == 1 ==> buf[at] != END)
  {
    var bs := buf[at..];
    assert bs == [END] <==> at + 1 == |buf| && buf[at] == END;
    assert Pads(bs) + 1 < |bs| ==> buf[at + Pads(bs) + 1] == bs[Pads(bs) + 1];
    assert Pads(bs) > 0 ==> bs[0] == PAD;
  }

  lemma SameOption(buf: seq<Byte>, at: nat, start: nat, end: nat)
    requires at <= |buf| && start + 2 <= end <= |buf| - at
    ensures OptionAt(buf[at..], start, end) == OptionAt(buf, at + start, at + end)
    ensures buf[at..][end..] == buf[at + end..]
  {
    assert buf[at..][start + 2..end] == buf[at + start + 2..at + end];
  }

  // ----- The counting loop -----

  /** One pass of the loop, at a place from which all bytes up to the end are left. */
  function Pass(buf: seq<Byte>, at: nat): (t: Turn)
    ensures t.Go? ==> t.at <= |buf|
  {
    if at > |buf| then Stop(false)
    else
      var c := NextOption(buf, at, |buf| - at);
      if c.option.None? then Stop(c.remain == 0 || (c.remain == 1 && buf[at] == END))
      else if c.at < 0 then Outside
      else if c.at > |buf| then Stop(false)
      else Go(c.at)
  }

  function Step(buf: seq<Byte>): nat -> Turn { (at: nat) => Pass(buf, at) }

  /** Where the loop is after n passes, from the start of the buffer. */
  function Passes(buf: seq<Byte>, n: nat): Turn { After(Step(buf), n) }

  /** The loop is over after as many passes as the payload has places, its end included. */
  predicate Ends(buf: seq<Byte>) { !Last(buf).Go? }

  function Last(buf: seq<Byte>): Turn { Passes(buf, |buf| + 1) }

  lemma {:induction false} InBuffer(buf: seq<Byte>, n: nat)
    ensures Passes(buf, n).Go? ==> Passes(buf, n).at <= |buf|
  {
    hide Pass;
    if n > 0 && Passes(buf, n - 1).Go? {
      assert Passes(buf, n) == Step(buf)(Passes(buf, n - 1).at);
    }
  }

  /** The loop ends at all exactly when it ends within that many passes. */
  lemma CountingEndsInTimeOrNever(buf: seq<Byte>)
    ensures Ends(buf) <==> exists n: nat :: !Passes(buf, n).Go?
  {
    hide After, Step;
    forall n: nat ensures After(Step(buf), n).Go? ==> After(Step(buf), n).at < |buf| + 1 {
      InBuffer(buf, n);
    }
    EndsInTimeOrNever(Step(buf), |buf| + 1);
    if Ends(buf) {
      assert !Passes(buf, |buf| + 1).Go?;
    } else {
      assert After(Step(buf), |buf| + 1).Go?;
      forall n: nat ensures Passes(buf, n).Go? {
        assert After(Step(buf), n).Go?;
      }
    }
  }

  /** An entry of the option list: where the value is, not the value itself. */
  datatype Entry = Entry(code: Byte, len: Byte, value: nat)

  function EntryAt(buf: seq<Byte>, start: nat): Entry
    requires start + 1 < |buf|
  {
    Entry(buf[start], buf[start + 1], start + 2)
  }

  lemma GoFindsOption(buf: seq<Byte>, at: nat)
    requires Pass(buf, at).Go?
    ensures at <= |buf| && Readable(buf, at, |buf|)
    ensures var c := NextOption(buf, at, |buf| - at);
            && c.option.Some? && c.option.value + 1 < |buf|
            && NextOption(buf, at, |buf|).option == c.option && NextOption(buf, at, |buf|).at == c.at
  {
  }

  /** Where the option is that a pass finds. */
  function StartOf(buf: seq<Byte>, at: nat): (start: nat)
    requires Pass(buf, at).Go?
    ensures at <= |buf| && start + 1 < |buf| && NextOption(buf, at, |buf| - at).option == Some(start)
  {
    GoFindsOption(buf, at);
    NextOption(buf, at, |buf| - at).option.value
  }

  /** The options that the first n passes find, as long as they go on. */
  function Entries(buf: seq<Byte>, n: nat): seq<Entry> {
    if n == 0 then []
    else match Passes(buf, n - 1)
      case Go(at) =>
        if Pass(buf, at).Go? then Entries(buf, n - 1) + [EntryAt(buf, StartOf(buf, at))] else []
      case _ => []
  }

  /** The turn that the cursor gives, and how place and remaining length go together. */
  lemma PassByCursor(buf: seq<Byte>, at: nat, n: nat)
    requires Passes(buf, n) == Go(at)
    ensures at <= |buf|
    ensures var c := NextOption(buf, at, |buf| - at);
            && (c.option.None? ==> c.at == at && c.remain >= 0 && (c.remain == 1 ==> at < |buf|))
            && (c.option.Some? ==> c.remain == |buf| - c.at)
            && Passes(buf, n + 1) ==
                 if c.option.None? then Stop(c.remain == 0 || (c.remain == 1 && buf[at] == END))
                 else if c.at < 0 then Outside
                 else if c.at > |buf| then Stop(false)
                 else Go(c.at)
    ensures at == |buf| ==> Passes(buf, n + 1) == Stop(true)
  {
    hide NextOption, After;
    NextPass(buf, n, at);
    CursorAdds(buf, at);
  }

  /** Place and remaining length add up to the end of the buffer. */
  lemma CursorAdds(buf: seq<Byte>, at: nat)
    requires at <= |buf|
    ensures var c := NextOption(buf, at, |buf| - at);
            && (c.option.None? ==> c.at == at && 0 <= c.remain <= |buf| - at)
            && (c.option.Some? ==> at < |buf| && c.remain == |buf| - c.at)
  {
    hide Pads;
  }

  /** The first pass over the payload: the options are counted. `wild` says that the
      cursor has left the payload at its front. */
  method CountOptions(payload: seq<Byte>) returns (ok: bool, count: nat, wild: bool)
    requires |payload| < 0x8000_0000 && Ends(payload)
    ensures wild <==> Last(payload) == Outside
    ensures ok <==> Last(payload) == Stop(true)
    ensures ok ==> Passes(payload, count).Go? && !Passes(payload, count + 1).Go?
  {
    hide NextOption, Pass, After, Step;
    StartsInFront(payload);
    count := 0;
    var at, remain := 0, |payload|;
    while remain != 0
      invariant 0 <= at
      invariant remain > 0 ==> remain == |payload| - at && Passes(payload, count) == Go(at)
      invariant remain == 0 ==> Passes(payload, count).Go? && Passes(payload, count + 1) == Stop(true)
      invariant remain < 0 ==> Passes(payload, count) == Stop(false)
      decreases remain > 0, |payload| - count
    {
      if remain > 0 {
        if count > |payload| {
          OverStaysOver(Step(payload), |payload| + 1, count);
        }
        PassByCursor(payload, at, count);
      } else {
        NegativeFindsNothing(payload, at, remain);
        SameOutcome(Step(payload), count, |payload| + 1);
      }
      var c := GetNextOption(payload, at, remain);
      if c.option.Some? {
        count := count + 1;
      } else if c.remain != 0 {
        if c.remain != 1 || payload[c.at] != END {
          if remain > 0 {
            SameOutcome(Step(payload), count + 1, |payload| + 1);
          }
          return false, count, false;
        } else {
          break;
        }
      }
      if c.at < 0 {
        SameOutcome(Step(payload), count, |payload| + 1);
        return false, count, true;
      }
      at := c.at;
      remain := c.remain;
      if remain == 0 && c.option.Some? {
        PassByCursor(payload, at, count);
      }
    }
    SameOutcome(Step(payload), count + 1, |payload| + 1);
    return true, count, false;
  }

  lemma StartsInFront(buf: seq<Byte>)
    ensures Passes(buf, 0) == Go(0) && (buf == [] ==> Passes(buf, 1) == Stop(true))
  {
  }

  lemma NegativeFindsNothing(buf: seq<Byte>, at: nat, remain: int)
    requires remain <= 0
    ensures NextOption(buf, at, remain) == Cursor(None, at, remain)
  {
  }

  /** Counts the options, then fills the list from the start again, each time with the
      whole length as the remaining one. */
  method UnpackDhcpPayload(payload: seq<Byte>) returns (ok: bool, entries: seq<Entry>, wild: bool)
    requires |payload| < 0x8000_0000 && Ends(payload)
    ensures wild <==> Last(payload) == Outside
    ensures ok <==> Last(payload) == Stop(true)
    ensures ok ==> Passes(payload, |entries|).Go? && !Passes(payload, |entries| + 1).Go?
                   && entries == Entries(payload, |entries|)
    ensures !Unpacked(payload).Runaway? ==>
              && !wild && (ok <==> Unpacked(payload).Options?)
              && (ok ==> Lists(payload, entries, Unpacked(payload).list))
  {
    hide NextOption, Pass, Unpacked, After, Step;
    entries := [];
    var count;
    ok, count, wild := CountOptions(payload);
    ghost var last := count;
    if !Unpacked(payload).Runaway? {
      last := UnpackedByPasses(payload);
    }
    if !ok {
      return;
    }
    OneEnd(Step(payload), last, count);
    StartsInFront(payload);
    var at: int, index := 0, 0;
    while index < count
      invariant 0 <= at && 0 <= index <= count && Passes(payload, index) == Go(at)
      invariant |entries| == index && entries == Entries(payload, index)
    {
      GoUntil(Step(payload), index + 1, count);
      PassByCursor(payload, at, index);
      NextPass(payload, index, at);
      GoFindsOption(payload, at);
      var c := GetNextOption(payload, at, |payload|);
      entries := entries + [EntryAt(payload, c.option.value)];
      at := c.at;
      index := index + 1;
    }
  }

  // ----- Without long lengths -----

  /** The list of entries stands for the options. */
  ghost predicate Lists(buf: seq<Byte>, entries: seq<Entry>, options: seq<Tlv>) {
    && |entries| == |options|
    && forall i :: 0 <= i < |entries| ==>
         var e := entries[i];
         e.value + e.len <= |buf| && options[i] == Tlv(e.code, buf[e.value..e.value + e.len])
  }

  function AllPreceded(options: seq<Tlv>, outcome: Outcome): Outcome {
    if outcome.Options? then Options(options + outcome.list) else outcome
  }

  lemma AllPrecededOne(options: seq<Tlv>, option: Tlv, outcome: Outcome)
    ensures AllPreceded(options, Preceded(option, outcome)) == AllPreceded(options + [option], outcome)
  {
    if outcome.Options? {
      assert options + ([option] + outcome.list) == options + [option] + outcome.list;
    }
  }

  /** How the outcome depends on what stands in front. */
  lemma UnpackedByFront(found: seq<Tlv>, buf: seq<Byte>, at: nat)
    requires at <= |buf|
    ensures var outcome := AllPreceded(found, Unpacked(buf[at..]));
            match FirstOption(buf[at..])
            case NoMore => outcome == Options(found)
            case Broken => outcome == Malformed
            case Long => outcome == Runaway
            case Found(start, end) =>
              var more := found + [OptionAt(buf, at + start, at + end)];
              && outcome == AllPreceded(more, Unpacked(buf[at + end..]))
              && (at + end == |buf| ==> outcome == Options(more))
  {
    hide FirstOption, OptionAt;
    var f := FirstOption(buf[at..]);
    if f.Found? {
      SameOption(buf, at, f.start, f.end);
      AllPrecededOne(found, OptionAt(buf, at + f.start, at + f.end), Unpacked(buf[at + f.end..]));
      NothingUnpacked();
      assert at + f.end == |buf| ==> buf[at + f.end..] == [];
      ghost var more := found + [OptionAt(buf, at + f.start, at + f.end)];
      assert more + [] == more;
    }
    assert found + [] == found;
  }

  lemma StartsEmpty(outcome: Outcome)
    ensures AllPreceded([], outcome) == outcome
  {
  }

  lemma NothingUnpacked()
    ensures Unpacked([]) == Options([])
  {
  }

  lemma PassByFront(buf: seq<Byte>, at: nat)
    requires at <= |buf| && FirstOption(buf[at..]) != Long
    ensures match FirstOption(buf[at..])
            case NoMore => Pass(buf, at) == Stop(true)
            case Broken => Pass(buf, at) == Stop(false)
            case Found(start, end) =>
              Pass(buf, at) == Go(at + end) && NextOption(buf, at, |buf| - at).option == Some(at + start)
  {
    hide FirstOption, NextOption;
    CursorFindsFront(buf, at);
  }

  /** As long as no length byte of 128 or more is met, the passes yield the options one
      after the other. */
  lemma {:induction false} PassesUnpack(buf: seq<Byte>, n: nat) returns (found: seq<Tlv>)
    requires !Unpacked(buf).Runaway? && Passes(buf, n).Go?
    ensures Listed(buf, n, found)
  {
    hide Pass, Unpacked, Listed;
    if n == 0 {
      found := [];
      NothingListed(buf);
    } else {
      var before := PassesUnpack(buf, n - 1);
      found := OneMoreListed(buf, n, before);
    }
  }

  ghost predicate Listed(buf: seq<Byte>, n: nat, found: seq<Tlv>) {
    && Passes(buf, n).Go? && 2 * n <= Passes(buf, n).at && Lists(buf, Entries(buf, n), found)
    && Unpacked(buf) == AllPreceded(found, Unpacked(buf[Passes(buf, n).at..]))
  }

  lemma NothingListed(buf: seq<Byte>)
    ensures Listed(buf, 0, [])
  {
    assert buf[0..] == buf;
    StartsEmpty(Unpacked(buf));
  }

  lemma OneMoreListed(buf: seq<Byte>, n: nat, before: seq<Tlv>) returns (found: seq<Tlv>)
    requires n > 0 && !Unpacked(buf).Runaway? && Passes(buf, n).Go? && Listed(buf, n - 1, before)
    ensures Listed(buf, n, found)
  {
    hide FirstOption, NextOption, Pass, Passes, Unpacked, AllPreceded, OptionAt, Entries, EntryAt, Lists;
    var at := Passes(buf, n - 1).at;
    NextPass(buf, n - 1, at);
    UnpackedByFront(before, buf, at);
    PassByFront(buf, at);
    FoundEntry(buf, at);
    var f := FirstOption(buf[at..]);
    var option := OptionAt(buf, at + f.start, at + f.end);
    found := before + [option];
    EntriesStep(buf, n, at, at + f.start);
    OneMoreInList(buf, Entries(buf, n - 1), before, EntryAt(buf, at + f.start), option);
  }

  lemma NextPass(buf: seq<Byte>, n: nat, at: nat)
    requires Passes(buf, n) == Go(at)
    ensures at <= |buf| && Passes(buf, n + 1) == Pass(buf, at)
  {
    hide Pass;
    InBuffer(buf, n);
    assert Step(buf)(at) == Pass(buf, at);
  }

  lemma EntriesStep(buf: seq<Byte>, n: nat, at: nat, start: nat)
    requires n > 0 && at <= |buf| && start + 1 < |buf|
    requires NextOption(buf, at, |buf| - at).option == Some(start)
    requires Passes(buf, n - 1) == Go(at) && Passes(buf, n).Go?
    ensures Entries(buf, n) == Entries(buf, n - 1) + [EntryAt(buf, start)]
  {
    hide NextOption, Pass, Passes;
    NextPass(buf, n - 1, at);
  }

  lemma OneMoreInList(buf: seq<Byte>, entries: seq<Entry>, options: seq<Tlv>, e: Entry, option: Tlv)
    requires Lists(buf, entries, options) && e.value + e.len <= |buf|
    requires option == Tlv(e.code, buf[e.value..e.value + e.len])
    ensures Lists(buf, entries + [e], options + [option])
  {
  }

  lemma FoundEntry(buf: seq<Byte>, at: nat)
    requires at <= |buf| && FirstOption(buf[at..]).Found?
    ensures var f := FirstOption(buf[at..]);
            var e := EntryAt(buf, at + f.start);
            && at + 2 <= at + f.end == e.value + e.len <= |buf|
            && OptionAt(buf, at + f.start, at + f.end) == Tlv(e.code, buf[e.value..e.value + e.len])
  {
  }

  /** The passes end after some option, at most half as many as there are bytes. */
  lemma {:induction false} ShortLengthsEnd(buf: seq<Byte>, n: nat) returns (last: nat)
    requires !Unpacked(buf).Runaway? && Passes(buf, n).Go?
    ensures Passes(buf, last).Go? && !Passes(buf, last + 1).Go? && Ends(buf)
    decreases |buf| - n
  {
    hide Pass, Unpacked, After, Step;
    InBuffer(buf, n);
    var _ := PassesUnpack(buf, n);
    if Passes(buf, n + 1).Go? {
      last := ShortLengthsEnd(buf, n + 1);
    } else {
      last := n;
      OverStaysOver(Step(buf), n + 1, |buf| + 1);
    }
  }

  /** A payload without such a length byte ends the loop, which then says what unpacking
      the payload option by option says. */
  lemma {:induction false} UnpackedByPasses(buf: seq<Byte>) returns (last: nat)
    requires !Unpacked(buf).Runaway?
    ensures Passes(buf, last).Go? && !Passes(buf, last + 1).Go?
    ensures Ends(buf) && Last(buf).Stop? && (Last(buf) == Stop(true) <==> Unpacked(buf).Options?)
    ensures Last(buf) == Stop(true) ==> Lists(buf, Entries(buf, last), Unpacked(buf).list)
  {
    hide NextOption, FirstOption, Pass, Unpacked, Lists, Entries;
    StartsInFront(buf);
    last := ShortLengthsEnd(buf, 0);
    var found := PassesUnpack(buf, last);
    SameOutcome(Step(buf), last + 1, |buf| + 1);
    var at := Passes(buf, last).at;
    UnpackedByFront(found, buf, at);
    PassByFront(buf, at);
  }

  // ----- What is accepted -----

  /** An option behind padding. */
  datatype Item = Item(pads: nat, option: Tlv)

  function Zeros(n: nat): seq<Byte> { seq(n, _ => PAD) }

  /** An option as it is built: code, length, value. */
  function Encoded(option: Tlv): seq<Byte>
    requires |option.value| < 128
  {
    [option.code, |option.value|] + option.value
  }

  predicate Encodable(items: seq<Item>) {
    forall item <- items :: item.option.code != PAD && |item.option.value| < 128
  }

  function Written(items: seq<Item>, tail: seq<Byte>): seq<Byte>
    requires Encodable(items)
  {
    if items == [] then tail
    else Zeros(items[0].pads) + Encoded(items[0].option) + Written(items[1..], tail)
  }

  function OptionsOf(items: seq<Item>): seq<Tlv> {
    if items == [] then [] else [items[0].option] + OptionsOf(items[1..])
  }

  /** What may follow the last option: the end option at once, or padding. An option
      without a value needs at least one byte after it. */
  ghost predicate Proper(items: seq<Item>, tail: seq<Byte>) {
    && Encodable(items)
    && (tail == [END] || forall i :: 0 <= i < |tail| ==> tail[i] == PAD)
    && (tail == [] && items != [] ==> items[|items| - 1].option.value != [])
  }

  lemma {:induction false} LeadingPads(n: nat, rest: seq<Byte>)
    requires rest == [] || rest[0] != PAD
    ensures Pads(Zeros(n) + rest) == n
  {
    var bs := Zeros(n) + rest;
    assert forall i :: 0 <= i < n ==> bs[i] == PAD;
    assert n < |bs| ==> bs[n] == rest[0];
  }

  lemma ItemLayout(pads: nat, option: Tlv, rest: seq<Byte>)
    requires option.code != PAD && |option.value| < 128
    ensures var bs := Zeros(pads) + Encoded(option) + rest;
            var end := pads + 2 + |option.value|;
            && Pads(bs) == pads && |bs| == end + |rest|
            && bs[pads] == option.code && bs[pads + 1] == |option.value|
            && bs[pads + 2..end] == option.value && bs[end..] == rest
  {
    var bs := Zeros(pads) + Encoded(option) + rest;
    assert bs == Zeros(pads) + (Encoded(option) + rest);
    LeadingPads(pads, Encoded(option) + rest);
    hide Pads;
  }

  lemma {:induction false} UnpackedFirst(pads: nat, option: Tlv, rest: seq<Byte>)
    requires option.code != PAD && |option.value| < 128 && (option.value != [] || rest != [])
    ensures Unpacked(Zeros(pads) + Encoded(option) + rest) == Preceded(option, Unpacked(rest))
  {
    hide Pads, Zeros, Encoded;
    ItemLayout(pads, option, rest);
  }

  /** Whatever is written that way is unpacked into the options it was made of. */
  lemma {:induction false} WrittenIsUnpacked(items: seq<Item>, tail: seq<Byte>)
    requires Proper(items, tail)
    ensures Unpacked(Written(items, tail)) == Options(OptionsOf(items))
    decreases |items|
  {
    if items != [] {
      WrittenIsUnpacked(items[1..], tail);
      UnpackedFirst(items[0].pads, items[0].option, Written(items[1..], tail));
    }
  }

  /** The items that a buffer is made of, and what comes after them. */
  function Items(bs: seq<Byte>): seq<Item>
    decreases |bs|
  {
    var f := FirstOption(bs);
    if f.Found? then [Item(f.start, OptionAt(bs, f.start, f.end))] + Items(bs[f.end..]) else []
  }

  function Tail(bs: seq<Byte>): seq<Byte>
    decreases |bs|
  {
    var f := FirstOption(bs);
    if f.Found? then Tail(bs[f.end..]) else bs
  }

  lemma FirstItem(bs: seq<Byte>)
    requires FirstOption(bs).Found?
    ensures var f := FirstOption(bs);
            var option := OptionAt(bs, f.start, f.end);
            && option.code != PAD && |option.value| < 128 && (option.value == [] ==> f.end < |bs|)
            && bs == Zeros(f.start) + Encoded(option) + bs[f.end..]
  {
    var p := Pads(bs);
    hide Pads;
    var end := p + 2 + bs[p + 1];
    assert bs[..p] == Zeros(p);
    assert bs == bs[..p] + ([bs[p], bs[p + 1]] + bs[p + 2..end]) + bs[end..];
  }

  /** Putting an item in front of a proper sequence keeps it proper. */
  lemma ProperFront(item: Item, items: seq<Item>, tail: seq<Byte>)
    requires Proper(items, tail) && item.option.code != PAD && |item.option.value| < 128
    requires items == [] && tail == [] ==> item.option.value != []
    ensures Proper([item] + items, tail)
    ensures Written([item] + items, tail) == Zeros(item.pads) + Encoded(item.option) + Written(items, tail)
  {
    hide Encoded, Zeros;
    var all := [item] + items;
    assert all[1..] == items;
    assert items != [] ==> all[|all| - 1] == items[|items| - 1];
  }

  lemma NoItems(bs: seq<Byte>)
    requires FirstOption(bs) == NoMore
    ensures Items(bs) == [] && Tail(bs) == bs && Proper([], bs) && Written([], bs) == bs
  {
  }

  lemma ItemsStep(bs: seq<Byte>)
    requires FirstOption(bs).Found?
    ensures var f := FirstOption(bs);
            && Items(bs) == [Item(f.start, OptionAt(bs, f.start, f.end))] + Items(bs[f.end..])
            && Tail(bs) == Tail(bs[f.end..])
            && Unpacked(bs) == Preceded(OptionAt(bs, f.start, f.end), Unpacked(bs[f.end..]))
  {
    hide FirstOption, OptionAt;
  }

  lemma UnpackedFront(bs: seq<Byte>)
    requires Unpacked(bs).Options?
    ensures FirstOption(bs) == NoMore || FirstOption(bs).Found?
  {
    hide FirstOption;
  }

  lemma {:induction false} UnpackedIsWritten(bs: seq<Byte>)
    requires Unpacked(bs).Options?
    ensures Proper(Items(bs), Tail(bs)) && Written(Items(bs), Tail(bs)) == bs
    decreases |bs|
  {
    hide FirstOption, Encoded, Zeros, OptionAt, Unpacked, Items, Tail, Proper, Written;
    UnpackedFront(bs);
    var f := FirstOption(bs);
    if f.Found? {
      FirstItem(bs);
      ItemsStep(bs);
      var rest := bs[f.end..];
      UnpackedIsWritten(rest);
      NothingWritten(Items(rest), Tail(rest));
      ProperFront(Item(f.start, OptionAt(bs, f.start, f.end)), Items(rest), Tail(rest));
    } else {
      NoItems(bs);
    }
  }

  lemma NothingWritten(items: seq<Item>, tail: seq<Byte>)
    requires Proper(items, tail)
    ensures items == [] && tail == [] ==> Written(items, tail) == []
  {
  }

  ghost predicate Writes(items: seq<Item>, tail: seq<Byte>, bs: seq<Byte>) {
    Proper(items, tail) && Written(items, tail) == bs
  }

  /** A buffer unpacks exactly when it is padded options followed by the end option or
      padding, and then the result is those options in their order. */
  lemma {:induction false} AcceptsExactlyProperOptions(bs: seq<Byte>)
    ensures Unpacked(bs).Options? <==> exists items, tail :: Writes(items, tail, bs)
    ensures forall items, tail :: Writes(items, tail, bs) ==> Unpacked(bs) == Options(OptionsOf(items))
  {
    if Unpacked(bs).Options? {
      UnpackedIsWritten(bs);
      assert Writes(Items(bs), Tail(bs), bs);
    }
    forall items, tail | Writes(items, tail, bs) ensures Unpacked(bs) == Options(OptionsOf(items)) {
      WrittenIsUnpacked(items, tail);
    }
  }

  // ----- What is not accepted -----

  /** Padding before the end option makes the whole payload invalid, and so does a last
      option without a value that nothing follows. */
  lemma {:induction false} RefusedEndings(items: seq<Item>, pads: nat, code: Byte)
    requires Encodable(items) && pads > 0 && code != PAD
    ensures Unpacked(Written(items, Zeros(pads) + [END])) == Malformed
    ensures Unpacked(Written(items, [code, 0])) == Malformed
    decreases |items|
  {
    if items == [] {
      LeadingPads(pads, [END]);
      assert Pads([code, 0]) == 0;
    } else {
      RefusedEndings(items[1..], pads, code);
      UnpackedFirst(items[0].pads, items[0].option, Written(items[1..], Zeros(pads) + [END]));
      UnpackedFirst(items[0].pads, items[0].option, Written(items[1..], [code, 0]));
    }
  }

  /** The cursor moves behind the option exactly when the length byte is below 128; from 128
      on it moves backwards, at 254 it stays, and at 255 it moves on by one byte. */
  lemma LongLengthMisplacesCursor(buf: seq<Byte>, at: nat)
    requires at + 2 < |buf| && buf[at] != PAD
    requires Signed(buf[at + 1]) <= |buf| - at
    ensures var c := NextOption(buf, at, |buf| - at);
            && c.option == Some(at)
            && (c.at == at + 2 + buf[at + 1] <==> buf[at + 1] < 128)
            && (c.at < at <==> 128 <= buf[at + 1] < 254)
            && (c.at == at && c.remain == |buf| - at <==> buf[at + 1] == 254)
            && (c.at == at + 1 <==> buf[at + 1] == 255)
  {
    assert buf[at..][0] == buf[at];
  }

  /** So the counting loop stays at the front forever when the first option has it. */
  lemma EndlessAt254(buf: seq<Byte>)
    requires |buf| > 2 && buf[0] != PAD && buf[1] == 254
    ensures !Ends(buf)
  {
    assert buf[0..] == buf;
    LongLengthMisplacesCursor(buf, 0);
    hide NextOption, Pass, Step;
    StartsInFront(buf);
    PassByCursor(buf, 0, 0);
    ComesBack(Step(buf), 0, 1, |buf| + 1);
  }
}
