/** The arithmetic of a layout, on rows of (alignment, extent). */
module RivlRows {
  // There is one row for each member. The same recursion is read twice: with `wrap` it is
  // the UINT32 arithmetic of the code, without it the offsets and sizes that are meant.

  const WORD: nat := 0x1_0000_0000

  /** `extent` is the exact number of bytes that a member takes. */
  datatype Row = Row(align: nat, extent: nat)

  predicate IsAlignment(n: nat) { n == 1 || n == 2 || n == 4 || n == 8 }

  predicate Proper(rows: seq<Row>) { forall k :: 0 <= k < |rows| ==> IsAlignment(rows[k].align) }

  function Clip(wrap: bool, n: nat): nat { if wrap then n % WORD else n }

  function Max(a: nat, b: nat): nat { if a > b then a else b }

  /** n % align, by cases on the alignment. */
  function Rest(n: nat, align: nat): nat
    requires IsAlignment(align)
  {
    if align == 1 then 0 else if align == 2 then n % 2 else if align == 4 then n % 4 else n % 8
  }

  lemma RestIsRemainder(n: nat, align: nat)
    requires IsAlignment(align)
    ensures Rest(n, align) == n % align
  {
    if align == 1 {
    } else if align == 2 {
    } else if align == 4 {
    }
  }

  function RoundUp(wrap: bool, n: nat, align: nat): nat
    requires IsAlignment(align)
  {
    if Rest(n, align) == 0 then n else Clip(wrap, n + align - Rest(n, align))
  }

  /** Structs: the running total after the first k members. */
  function End(wrap: bool, rows: seq<Row>, k: nat): nat
    requires k <= |rows| && Proper(rows)
  {
    if k == 0 then 0
    else Clip(wrap, Start(wrap, rows, k - 1, End(wrap, rows, k - 1)) + Clip(wrap, rows[k - 1].extent))
  }

  /** Where member k starts when the running total is `total`. */
  function Start(wrap: bool, rows: seq<Row>, k: nat, total: nat): nat
    requires k < |rows| && Proper(rows)
  {
    RoundUp(wrap, total, rows[k].align)
  }

  function Offset(wrap: bool, rows: seq<Row>, k: nat): nat
    requires k < |rows| && Proper(rows)
  {
    Start(wrap, rows, k, End(wrap, rows, k))
  }

  /** Unions: the largest extent of the first k members. */
  function Widest(wrap: bool, rows: seq<Row>, k: nat): nat
    requires k <= |rows|
  {
    if k == 0 then 0 else Max(Widest(wrap, rows, k - 1), Clip(wrap, rows[k - 1].extent))
  }

  // ----- Rounding -----

  lemma RoundUpExact(n: nat, align: nat)
    requires IsAlignment(align)
    ensures var r := RoundUp(false, n, align); Rest(r, align) == 0 && n <= r < n + align
  {
    if align == 2 {
      NextMultipleOf2(n);
    } else if align == 4 {
      NextMultipleOf4(n);
    } else if align == 8 {
      NextMultipleOf8(n);
    }
  }

  lemma NextMultipleOf2(n: nat)
    ensures (n + 2 - n % 2) % 2 == 0
  {
  }

  lemma NextMultipleOf4(n: nat)
    ensures (n + 4 - n % 4) % 4 == 0
  {
  }

  lemma NextMultipleOf8(n: nat)
    ensures (n + 8 - n % 8) % 8 == 0
  {
  }

  /** Rounding up below 2^32 stays below or lands on 2^32 itself, which wraps to 0. */
  lemma RoundUpClipped(n: nat, align: nat)
    requires n < WORD && IsAlignment(align)
    ensures var r := RoundUp(false, n, align);
            && r <= WORD && (n == 0 ==> r == 0)
            && RoundUp(true, n, align) == if r < WORD then r else 0
  {
  }

  // ----- When the 32-bit computation is exact -----

  ghost predicate Agrees(rows: seq<Row>, k: nat)
    requires k <= |rows| && Proper(rows)
  {
    End(true, rows, k) == End(false, rows, k) < WORD
  }

  /** One step of the running total, away from the edge. */
  lemma StepWithoutWrap(total: nat, r: Row)
    requires total < WORD && IsAlignment(r.align)
    requires RoundUp(false, total, r.align) + r.extent < WORD
    ensures RoundUp(true, total, r.align) == RoundUp(false, total, r.align)
    ensures Clip(true, RoundUp(true, total, r.align) + Clip(true, r.extent)) ==
            RoundUp(false, total, r.align) + r.extent
  {
    RoundUpClipped(total, r.align);
    var off := RoundUp(false, total, r.align);
    ClipIsExact(r.extent);
    ClipIsExact(off + r.extent);
  }

  lemma ClipIsExact(n: nat)
    requires n < WORD
    ensures Clip(true, n) == n
  {
  }

  lemma EndGrows(rows: seq<Row>, k: nat)
    requires k < |rows| && Proper(rows)
    ensures End(false, rows, k) <= Offset(false, rows, k)
    ensures Offset(false, rows, k) < End(false, rows, k) + rows[k].align
    ensures Rest(Offset(false, rows, k), rows[k].align) == 0
    ensures End(false, rows, k + 1) == Offset(false, rows, k) + rows[k].extent
  {
    RoundUpExact(End(false, rows, k), rows[k].align);
  }

  lemma AgreeStep(rows: seq<Row>, k: nat)
    requires k < |rows| && Proper(rows) && Agrees(rows, k)
    requires End(false, rows, k + 1) < WORD
    ensures Agrees(rows, k + 1)
    ensures Offset(true, rows, k) == Offset(false, rows, k)
  {
    EndGrows(rows, k);
    StepWithoutWrap(End(false, rows, k), rows[k]);
  }

  lemma {:induction false} FitsAgrees(rows: seq<Row>, k: nat)
    requires k <= |rows| && Proper(rows) && End(false, rows, k) < WORD
    ensures Agrees(rows, k)
  {
    if k > 0 {
      EndGrows(rows, k - 1);
      FitsAgrees(rows, k - 1);
      AgreeStep(rows, k - 1);
    }
  }

  /** Member k starts where the one before it has ended, or later, and ends within
      `size`. */
  ghost predicate Follows(rows: seq<Row>, k: nat, size: nat)
    requires k < |rows| && Proper(rows)
  {
    && Offset(true, rows, k) + rows[k].extent <= size
    && (k > 0 ==> Offset(true, rows, k - 1) + rows[k - 1].extent <= Offset(true, rows, k))
  }

  ghost predicate InOrder(rows: seq<Row>, size: nat)
    requires Proper(rows)
  {
    forall k :: 0 <= k < |rows| ==> Follows(rows, k, size)
  }

  /** Members that follow one another leave no room for a wrap-around. */
  lemma {:induction false} InOrderAgrees(rows: seq<Row>, k: nat, size: nat)
    requires k <= |rows| && Proper(rows) && size < WORD && InOrder(rows, size)
    ensures Agrees(rows, k)
    ensures k > 0 ==> Offset(true, rows, k - 1) == Offset(false, rows, k - 1)
  {
    if k > 0 {
      InOrderAgrees(rows, k - 1, size);
      assert Follows(rows, k - 1, size);
      if k > 1 {
        EndGrows(rows, k - 2);
      }
      FollowsFits(rows, k - 1, size);
      AgreeStep(rows, k - 1);
    }
  }

  lemma FollowsFits(rows: seq<Row>, k: nat, size: nat)
    requires k < |rows| && Proper(rows) && size < WORD && Agrees(rows, k)
    requires End(false, rows, k) <= Offset(true, rows, k) && Offset(true, rows, k) + rows[k].extent <= size
    ensures End(false, rows, k + 1) < WORD
  {
    NoRoomToWrap(End(false, rows, k), rows[k], size);
    EndGrows(rows, k);
  }

  /** If the wrapped offset is not behind the total and the member still ends within
      a 32-bit size, nothing has wrapped. */
  lemma NoRoomToWrap(total: nat, r: Row, size: nat)
    requires total < WORD && IsAlignment(r.align) && size < WORD
    requires total <= RoundUp(true, total, r.align) && RoundUp(true, total, r.align) + r.extent <= size
    ensures RoundUp(false, total, r.align) + r.extent < WORD
  {
    RoundUpClipped(total, r.align);
  }

  /** For a struct: the code's offsets follow one another inside the code's size
      exactly when the size that is meant fits in 32 bits, and then all of them are
      what is meant. */
  lemma {:induction false} StructFitsIffInOrder(rows: seq<Row>, align: nat)
    requires Proper(rows) && IsAlignment(align)
    ensures var n := |rows|;
            var meant := RoundUp(false, End(false, rows, n), align);
            var size := RoundUp(true, End(true, rows, n), align);
            && (InOrder(rows, size) <==> meant < WORD)
            && (meant < WORD ==>
                  size == meant && forall k :: 0 <= k < n ==> Offset(true, rows, k) == Offset(false, rows, k))
  {
    var n := |rows|;
    var meant := RoundUp(false, End(false, rows, n), align);
    var size := RoundUp(true, End(true, rows, n), align);
    RoundUpExact(End(false, rows, n), align);
    if meant < WORD {
      FitsAgrees(rows, n);
      RoundUpClipped(End(false, rows, n), align);
      forall k | 0 <= k < n
        ensures Offset(true, rows, k) == Offset(false, rows, k) && Follows(rows, k, size)
      {
        FitsFollows(rows, k, size);
      }
    }
    if InOrder(rows, size) {
      SizeIsAWord(rows, n, align);
      InOrderAgrees(rows, n, size);
      RoundUpClipped(End(false, rows, n), align);
      if n > 0 {
        EndGrows(rows, n - 1);
        assert Follows(rows, n - 1, size);
      }
    }
  }

  lemma {:induction false} FitsFollows(rows: seq<Row>, k: nat, size: nat)
    requires k < |rows| && Proper(rows) && End(false, rows, |rows|) < WORD && End(false, rows, |rows|) <= size
    ensures Offset(true, rows, k) == Offset(false, rows, k) && Follows(rows, k, size)
  {
    EndsGrow(rows, k + 1, |rows|);
    EndGrows(rows, k);
    FitsAgrees(rows, k);
    AgreeStep(rows, k);
    if k > 0 {
      EndGrows(rows, k - 1);
      FitsAgrees(rows, k - 1);
      AgreeStep(rows, k - 1);
    }
  }

  lemma {:induction false} SizeIsAWord(rows: seq<Row>, n: nat, align: nat)
    requires n <= |rows| && Proper(rows) && IsAlignment(align)
    ensures RoundUp(true, End(true, rows, n), align) < WORD
  {
  }

  lemma {:induction false} EndsGrow(rows: seq<Row>, k: nat, n: nat)
    requires k <= n <= |rows| && Proper(rows)
    ensures End(false, rows, k) <= End(false, rows, n)
    decreases n
  {
    if k < n {
      EndGrows(rows, n - 1);
      EndsGrow(rows, k, n - 1);
    }
  }

  // ----- Unions -----

  lemma {:induction false} WidestIsMaximum(rows: seq<Row>, k: nat)
    requires k <= |rows|
    ensures forall i :: 0 <= i < k ==> rows[i].extent <= Widest(false, rows, k)
    ensures k > 0 ==> exists i :: 0 <= i < k && rows[i].extent == Widest(false, rows, k)
  {
    if k > 0 {
      WidestIsMaximum(rows, k - 1);
      if rows[k - 1].extent >= Widest(false, rows, k - 1) {
        assert rows[k - 1].extent == Widest(false, rows, k);
      }
    }
  }

  lemma {:induction false} WidestClipped(rows: seq<Row>, k: nat)
    requires k <= |rows|
    ensures Widest(true, rows, k) < WORD
    ensures (forall i :: 0 <= i < k ==> rows[i].extent < WORD) ==> Widest(true, rows, k) == Widest(false, rows, k)
  {
    if k > 0 {
      WidestClipped(rows, k - 1);
    }
  }

  /** The same for a union. */
  lemma {:induction false} UnionFitsIffContained(rows: seq<Row>, align: nat)
    requires rows != [] && IsAlignment(align)
    ensures var n := |rows|;
            var meant := RoundUp(false, Widest(false, rows, n), align);
            var size := RoundUp(true, Widest(true, rows, n), align);
            && ((forall i :: 0 <= i < n ==> rows[i].extent <= size) <==> meant < WORD)
            && (meant < WORD ==> size == meant)
  {
    var n := |rows|;
    WidestIsMaximum(rows, n);
    WidestClipped(rows, n);
    RoundUpExact(Widest(false, rows, n), align);
    RoundUpClipped(Widest(true, rows, n), align);
    if forall i :: 0 <= i < n ==> rows[i].extent <= RoundUp(true, Widest(true, rows, n), align) {
      var i :| 0 <= i < n && rows[i].extent == Widest(false, rows, n);
      assert rows[i].extent <= RoundUp(true, Widest(true, rows, n), align);
    }
  }
}
