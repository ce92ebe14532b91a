/** Comparing lists of DHCP options: whether one is part of the other. */
module DhcpInclude {
  import opened Basics
  import opened Dhcp

  /** The first option of a list that has the code. */
  function FirstOfCode(list: seq<Tlv>, code: Byte): Option<Tlv> {
    if list == [] then None
    else if list[0].code == code then Some(list[0])
    else FirstOfCode(list[1..], code)
  }

  ghost predicate FirstAt(list: seq<Tlv>, k: nat, code: Byte) {
    k < |list| && list[k].code == code && forall i: nat :: i < k ==> list[i].code != code
  }

  lemma {:induction false} FirstStandsFirst(list: seq<Tlv>, code: Byte)
    ensures FirstOfCode(list, code).None? <==> forall k: nat :: !FirstAt(list, k, code)
    ensures forall k: nat :: FirstAt(list, k, code) ==> FirstOfCode(list, code) == Some(list[k])
  {
    if list != [] && list[0].code != code {
      FirstStandsFirst(list[1..], code);
      forall k: nat ensures FirstAt(list, k + 1, code) <==> FirstAt(list[1..], k, code) {
        assert forall i: nat :: i < |list| - 1 ==> list[1..][i] == list[i + 1];
        if FirstAt(list[1..], k, code) {
          assert forall i: nat :: 0 < i < k + 1 ==> list[i] == list[1..][i - 1];
        }
      }
      forall k: nat | FirstAt(list, k, code) ensures k > 0 && FirstAt(list[1..], k - 1, code) {
        assert k - 1 + 1 == k;
      }
      if FirstOfCode(list, code).Some? {
        var k: nat :| FirstAt(list[1..], k, code);
        assert FirstAt(list, k + 1, code);
      }
    } else if list != [] {
      assert FirstAt(list, 0, code);
    }
  }

  ghost predicate Included(haystack: seq<Tlv>, needle: seq<Tlv>) {
    |needle| <= |haystack| &&
    forall i :: 0 <= i < |needle| ==> FirstOfCode(haystack, needle[i].code) == Some(needle[i])
  }

  method DhcpOptionListInclude(haystack: seq<Tlv>, needle: seq<Tlv>) returns (included: bool)
    ensures included <==> Included(haystack, needle)
  {
    if |needle| > |haystack| {
      return false;
    }
    var index := 0;
    while index < |needle|
      invariant 0 <= index <= |needle|
      invariant forall i :: 0 <= i < index ==> FirstOfCode(haystack, needle[i].code) == Some(needle[i])
    {
      var index2 := 0;
      assert haystack[0..] == haystack;
      while index2 < |haystack|
        invariant 0 <= index2 <= |haystack|
        invariant FirstOfCode(haystack, needle[index].code) == FirstOfCode(haystack[index2..], needle[index].code)
      {
        if needle[index].code == haystack[index2].code {
          if |needle[index].value| != |haystack[index2].value| || needle[index].value != haystack[index2].value {
            return false;
          } else {
            break;
          }
        }
        assert haystack[index2..][1..] == haystack[index2 + 1..];
        index2 := index2 + 1;
      }
      if index2 == |haystack| {
        return false;
      }
      index := index + 1;
    }
    included := true;
  }

  ghost predicate DistinctCodes(list: seq<Tlv>) {
    forall i, j :: 0 <= i < j < |list| ==> list[i].code != list[j].code
  }

  lemma {:induction false} FirstIsInList(list: seq<Tlv>, option: Tlv)
    ensures FirstOfCode(list, option.code) == Some(option) ==> option in list
  {
    if list != [] {
      FirstIsInList(list[1..], option);
      assert list == [list[0]] + list[1..];
    }
  }

  lemma SublistIsShorter(haystack: seq<Tlv>, needle: seq<Tlv>)
    requires DistinctCodes(needle) && forall n <- needle :: n in haystack
    ensures |needle| <= |haystack|
  {
    if needle != [] {
      var last := needle[|needle| - 1];
      assert last in needle;
      var k :| 0 <= k < |haystack| && haystack[k] == last;
      var rest := haystack[..k] + haystack[k + 1..];
      forall n <- needle[..|needle| - 1] ensures n in rest {
        assert n in needle;
        var j :| 0 <= j < |haystack| && haystack[j] == n;
        assert rest[if j < k then j else j - 1] == n;
      }
      SublistIsShorter(rest, needle[..|needle| - 1]);
    }
  }

  ghost predicate Subset(haystack: seq<Tlv>, needle: seq<Tlv>) { forall n <- needle :: n in haystack }

  /** Options of the same code are the same option. */
  ghost predicate OneOptionPerCode(list: seq<Tlv>) {
    forall i, j :: 0 <= i < j < |list| && list[i].code == list[j].code ==> list[i] == list[j]
  }

  lemma {:induction false} FirstIsTheOnlyOne(list: seq<Tlv>, option: Tlv)
    requires OneOptionPerCode(list) && option in list
    ensures FirstOfCode(list, option.code) == Some(option)
  {
    if list[0].code != option.code {
      assert list == [list[0]] + list[1..];
      FirstIsTheOnlyOne(list[1..], option);
    }
  }

  /** An included list is no longer than the other and a sublist of it; the other way round
      this holds when the other list has one option per code. */
  lemma IncludedIsSubset(haystack: seq<Tlv>, needle: seq<Tlv>)
    ensures Included(haystack, needle) ==> Subset(haystack, needle) && |needle| <= |haystack|
    ensures OneOptionPerCode(haystack) && Subset(haystack, needle) && |needle| <= |haystack| ==>
              Included(haystack, needle)
  {
    forall i | 0 <= i < |needle|
      ensures FirstOfCode(haystack, needle[i].code) == Some(needle[i]) ==> needle[i] in haystack
      ensures OneOptionPerCode(haystack) && needle[i] in haystack ==>
                FirstOfCode(haystack, needle[i].code) == Some(needle[i])
    {
      FirstIsInList(haystack, needle[i]);
      if OneOptionPerCode(haystack) && needle[i] in haystack {
        FirstIsTheOnlyOne(haystack, needle[i]);
      }
    }
  }

  /** Only the first option of a code is ever looked at, so one of two that differ is
      missed although it is in the list. */
  lemma {:induction false} RepeatedCodeIsMissed(list: seq<Tlv>, i: nat, j: nat)
    requires i < j < |list| && list[i].code == list[j].code && list[i] != list[j]
    ensures !Included(list, [list[i]]) || !Included(list, [list[j]])
  {
    assert [list[i]][0] == list[i] && [list[j]][0] == list[j];
  }

  ghost predicate IncludedMeansSubset(haystack: seq<Tlv>, needle: seq<Tlv>) {
    Included(haystack, needle) <==> Subset(haystack, needle)
  }

  /** Comparing a list with any list that is not longer, or with any list that has no code
      twice, is the subset test if and only if options of the same code are the same. */
  lemma SubsetExactlyForOneOptionPerCode(haystack: seq<Tlv>)
    ensures (forall needle: seq<Tlv> | |needle| <= |haystack| :: IncludedMeansSubset(haystack, needle)) <==>
              OneOptionPerCode(haystack)
    ensures (forall needle: seq<Tlv> | DistinctCodes(needle) :: IncludedMeansSubset(haystack, needle)) <==>
              OneOptionPerCode(haystack)
  {
    hide FirstOfCode, Included, IncludedMeansSubset, Subset;
    if OneOptionPerCode(haystack) {
      forall needle: seq<Tlv> | |needle| <= |haystack| || DistinctCodes(needle)
        ensures IncludedMeansSubset(haystack, needle)
      {
        AgreeWhenShort(haystack, needle);
      }
    } else {
      var i, j :| 0 <= i < j < |haystack| && haystack[i].code == haystack[j].code && haystack[i] != haystack[j];
      ADifferenceIsMissed(haystack, i, j);
      assert DistinctCodes([haystack[i]]) && DistinctCodes([haystack[j]]);
    }
  }

  lemma AgreeWhenShort(haystack: seq<Tlv>, needle: seq<Tlv>)
    requires OneOptionPerCode(haystack) && (|needle| <= |haystack| || DistinctCodes(needle))
    ensures IncludedMeansSubset(haystack, needle)
  {
    hide FirstOfCode, Included;
    IncludedIsSubset(haystack, needle);
    if DistinctCodes(needle) && Subset(haystack, needle) {
      SublistIsShorter(haystack, needle);
    }
  }

  lemma ADifferenceIsMissed(haystack: seq<Tlv>, i: nat, j: nat)
    requires i < j < |haystack| && haystack[i].code == haystack[j].code && haystack[i] != haystack[j]
    ensures !IncludedMeansSubset(haystack, [haystack[i]]) || !IncludedMeansSubset(haystack, [haystack[j]])
  {
    hide FirstOfCode, Included;
    RepeatedCodeIsMissed(haystack, i, j);
  }
}
