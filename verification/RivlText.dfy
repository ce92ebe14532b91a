/** The text of a name: numbers in subscripts, and the parts between the dots. */
module RivlText {
  import opened Basics
  import opened RivlRows
  import opened RivlValue
  import opened RivlWalk

  // ----- Numbers -----

  predicate IsDigit(c: char) { '0' <= c <= '9' }

  predicate IsHexDigit(c: char) { 'a' <= c <= 'f' || 'A' <= c <= 'F' }

  predicate IsDigitOf(hex: bool, c: char) { IsDigit(c) || (hex && IsHexDigit(c)) }

  /** How many digits s starts with. */
  function Run(hex: bool, s: string): (n: nat)
    ensures n <= |s| && (n < |s| ==> !IsDigitOf(hex, s[n]))
    ensures forall i: nat :: i < n ==> IsDigitOf(hex, s[i])
  {
    if s == "" || !IsDigitOf(hex, s[0]) then 0 else 1 + Run(hex, s[1..])
  }

  /** The number that a string of digits writes, in 32-bit arithmetic. */
  function Value32(hex: bool, s: string): (v: nat) { if hex then Parse(s) % WORD else ValueOf(s) % WORD }

  predicate StartsHex(s: string) { |s| >= 2 && s[0] == '0' && (s[1] == 'x' || s[1] == 'X') }

  /** A number at the front of s, and how many characters it takes. The sign of a
      hexadecimal number is dropped. */
  function ReadNumber(s: string): (r: (nat, nat))
    ensures r.1 <= |s|
  {
    var sign := if s != "" && s[0] == '-' then 1 else 0;
    if StartsHex(s[sign..]) then
      var n := Run(true, s[sign + 2..]);
      (Value32(true, s[sign + 2..sign + 2 + n]), sign + 2 + n)
    else
      var n := Run(false, s[sign..]);
      var v := Value32(false, s[sign..sign + n]);
      (if sign == 1 then (WORD - v) % WORD else v, sign + n)
  }

  lemma OneMoreDigit(hex: bool, s: string, i: nat)
    requires i < |s| && IsDigitOf(hex, s[i])
    ensures Value32(hex, s[..i + 1]) == (Value32(hex, s[..i]) * (if hex then 16 else 10) + DigitValue(s[i])) % WORD
  {
    assert s[..i + 1][..i] == s[..i];
    var base := if hex then 16 else 10;
    var v := if hex then Parse(s[..i]) else ValueOf(s[..i]);
    DropWords(v / WORD * base, v % WORD * base + DigitValue(s[i]));
  }

  lemma DropWords(q: int, r: int)
    ensures (WORD * q + r) % WORD == r % WORD
  {
  }

  lemma {:induction false} RunGoesOn(hex: bool, s: string, i: nat)
    requires i <= |s| && forall j: nat :: j < i ==> IsDigitOf(hex, s[j])
    requires i == |s| || !IsDigitOf(hex, s[i])
    ensures Run(hex, s) == i
  {
  }

  /** Both loops of the conversion. */
  method AccumulateDigits(hex: bool, s: string, start: nat) returns (value: nat, at: nat)
    requires start <= |s|
    ensures at == start + Run(hex, s[start..]) && value == Value32(hex, s[start..at])
  {
    hide Value32, Run;
    value, at := 0, start;
    assert s[start..at] == "" == s[start..][..0];
    Nothing(hex);
    while at < |s| && IsDigitOf(hex, s[at])
      invariant start <= at <= |s|
      invariant forall j: nat :: j < at - start ==> IsDigitOf(hex, s[start..][j])
      invariant value == Value32(hex, s[start..][..at - start])
    {
      OneMoreDigit(hex, s[start..], at - start);
      value := (value * (if hex then 16 else 10) + DigitValue(s[at])) % WORD;
      at := at + 1;
    }
    assert s[start..][..at - start] == s[start..at];
    RunGoesOn(hex, s[start..], at - start);
  }

  lemma Nothing(hex: bool)
    ensures Value32(hex, "") == 0
  {
  }

  method AsciiStringToUint32(str: string) returns (value: nat, used: nat)
    ensures (value, used) == ReadNumber(str)
  {
    hide Value32, Run, StartsHex;
    TwoCharacters(str);
    var negative := str != "" && str[0] == '-';
    var index := if negative then 1 else 0;
    if StartsHex(str[index..]) {
      TwoCharacters(str[index..]);
      value, used := AccumulateDigits(true, str, index + 2);
      return;
    }
    value, used := AccumulateDigits(false, str, index);
    if negative {
      value := (WORD - value) % WORD;
    }
  }

  lemma TwoCharacters(s: string)
    ensures StartsHex(s) ==> |s| >= 2
  {
  }

  // ----- Parts -----

  /** One part of a name, with its subscript if it has one. */
  datatype Part = Part(name: string, index: Option<nat>)

  /** Where c stands first, or the length of s. */
  function First(c: char, s: string): (n: nat)
    ensures n <= |s| && (n < |s| ==> s[n] == c) && forall i: nat :: i < n ==> s[i] != c
  {
    if s == "" || s[0] == c then 0 else 1 + First(c, s[1..])
  }

  /** What a part is read as when its subscript cannot be read: no variable has the empty
      name, and no member is looked up with the subscript 0. */
  const MALFORMED: Part := Part("", Some(0))

  /** A part that ends with a parenthesis has a subscript, which is one number from the first
      parenthesis on. */
  function ReadPart(s: string): Part {
    if s == "" || s[|s| - 1] != ')' then Part(s, None)
    else
      var n := First('(', s);
      if n == 0 || n == |s| || |s| - n - 2 != ReadNumber(s[n + 1..]).1 then MALFORMED
      else Part(s[..n], Some(ReadNumber(s[n + 1..]).0))
  }

  method IsDefineArray(str: string) returns (isArray: bool, num: nat, name: string)
    ensures ReadPart(str) == if !isArray && num == 0 then MALFORMED else Part(name, if isArray then Some(num) else None)
    ensures if isArray then name != "" else num <= 1
  {
    if str == "" || str[|str| - 1] != ')' {
      return false, 1, str;
    }
    var index := 0;
    while index < |str| && str[index] != '('
      invariant index <= First('(', str)
    {
      index := index + 1;
    }
    if index == 0 || index == |str| {
      return false, 0, "";
    }
    var value, used := AsciiStringToUint32(str[index + 1..]);
    if |str| - index - 2 != used {
      return false, 0, "";
    }
    return true, value, str[..index];
  }

  /** The parts of a name: up to the first dot, and from the dot on. */
  function ReadName(s: string): (r: seq<Part>)
    ensures r != []
    decreases |s|, 1
  {
    var n := First('.', s);
    [ReadPart(s[..n])] + ReadRest(s[n..])
  }

  function ReadRest(s: string): seq<Part>
    decreases |s|, 0
  {
    if s == "" then [] else ReadName(s[1..])
  }

  /** The part behind a dot, and what follows it. */
  lemma NextPart(s: string, at: nat, end: nat)
    requires at < |s| && end == at + 1 + First('.', s[at + 1..])
    ensures ReadRest(s[at..]) == [ReadPart(s[at + 1..end])] + ReadRest(s[end..])
  {
    assert s[at..][1..] == s[at + 1..];
    assert s[at + 1..][..end - at - 1] == s[at + 1..end] && s[at + 1..][end - at - 1..] == s[end..];
  }

  // ----- What is printed is read -----

  /** The text of a part; the walk prints subscripts like this. */
  function PartName(p: Part): string {
    if p.index.Some? then Indexed(p.name, p.index.value) else p.name
  }

  predicate Readable(p: Part) {
    && '.' !in p.name && '(' !in p.name && ')' !in p.name
    && (p.index.Some? ==> p.name != "" && p.index.value < WORD)
  }

  lemma NumberIsRead(n: nat)
    requires n < WORD
    ensures ReadNumber(Decimal(n) + ")") == (n, |Decimal(n)|)
  {
    hide Decimal, Run, ValueOf;
    DecimalIsNumeral(n);
    var s, t := Decimal(n), Decimal(n) + ")";
    assert forall i: nat :: i < |s| ==> t[i] == s[i];
    assert t[|s|] == ')' && !StartsHex(t) && t[0..] == t && t[..|s|] == s;
    RunGoesOn(false, t, |s|);
  }

  lemma FirstIs(c: char, s: string, n: nat)
    requires n <= |s| && (n < |s| ==> s[n] == c) && forall i: nat :: i < n ==> s[i] != c
    ensures First(c, s) == n
  {
    assert First(c, s) <= |s|;
  }

  lemma PartIsRead(p: Part)
    requires Readable(p)
    ensures ReadPart(PartName(p)) == p && '.' !in PartName(p)
  {
    hide Decimal, ReadNumber, First;
    var s := PartName(p);
    if p.index.Some? {
      var d := Decimal(p.index.value);
      DecimalIsNumeral(p.index.value);
      NumberIsRead(p.index.value);
      assert s == p.name + ("(" + (d + ")"));
      FirstIs('(', s, |p.name|);
      assert s[..|p.name|] == p.name && s[|p.name| + 1..] == d + ")";
    }
  }

  lemma SinglePart(s: string)
    requires '.' !in s
    ensures ReadName(s) == [ReadPart(s)]
  {
    FirstIs('.', s, |s|);
    assert s[..|s|] == s;
  }

  lemma FirstBehind(s: string, t: string)
    requires t != "" && t[0] == '.'
    ensures var n := First('.', s);
            First('.', s + t) == n && (s + t)[..n] == s[..n] && (s + t)[n..] == s[n..] + t
  {
    FirstIs('.', s + t, First('.', s));
  }

  lemma PartAlone(p: Part)
    requires Readable(p)
    ensures ReadName(PartName(p)) == [p]
  {
    PartIsRead(p);
    SinglePart(PartName(p));
  }

  /** The first part of a name and the rest behind its first dot. */
  lemma CutAtDot(s: string)
    ensures var n := First('.', s);
            ReadName(s) == [ReadPart(s[..n])] + if n < |s| then ReadName(s[n + 1..]) else []
  {
    hide First, ReadPart;
    var n := First('.', s);
    if n < |s| {
      assert s[n..][1..] == s[n + 1..];
    } else {
      assert s[n..] == "";
    }
  }

  /** A text behind a further dot comes last. */
  lemma {:induction false} ReadBehindDot(s: string, t: string)
    ensures ReadName(s + ("." + t)) == ReadName(s) + ReadName(t)
    decreases |s|
  {
    hide ReadName, ReadPart, First;
    var whole, n := s + ("." + t), First('.', s);
    FirstBehind(s, "." + t);
    CutAtDot(s);
    CutAtDot(whole);
    if n < |s| {
      var first := [ReadPart(s[..n])];
      ReadBehindDot(s[n + 1..], t);
      assert whole[n + 1..] == s[n + 1..] + ("." + t);
      assert first + (ReadName(s[n + 1..]) + ReadName(t)) == first + ReadName(s[n + 1..]) + ReadName(t);
    } else {
      assert whole[n + 1..] == t;
    }
  }

  /** Every part that is printed behind a name is the last one that is read. */
  lemma NameIsRead(s: string, p: Part)
    requires Readable(p)
    ensures ReadName(Dotted(s, PartName(p))) == ReadName(s) + [p]
  {
    hide ReadName, PartName, Readable;
    PartAlone(p);
    ReadBehindDot(s, PartName(p));
    assert Dotted(s, PartName(p)) == s + ("." + PartName(p));
  }
}
