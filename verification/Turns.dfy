/** A loop that goes from place to place. */
module Turns {
  /** What one pass leads to: the loop stops and says whether what it has read is valid, or
      it leaves the places at the front, or it goes on from a place. */
  datatype Turn = Stop(valid: bool) | Outside | Go(at: nat)

  /** Where the loop is after n passes, from the first place. */
  function After(step: nat -> Turn, n: nat): Turn {
    if n == 0 then Go(0)
    else match After(step, n - 1)
      case Go(at) => step(at)
      case Stop(valid) => Stop(valid)
      case Outside => Outside
  }

  lemma {:induction false} OverStaysOver(step: nat -> Turn, m: nat, n: nat)
    requires m <= n && !After(step, m).Go?
    ensures After(step, n) == After(step, m)
    decreases n
  {
    if m < n {
      OverStaysOver(step, m, n - 1);
    }
  }

  lemma GoUntil(step: nat -> Turn, m: nat, n: nat)
    requires m <= n && After(step, n).Go?
    ensures After(step, m).Go?
  {
    if !After(step, m).Go? {
      OverStaysOver(step, m, n);
    }
  }

  /** There is only one last pass that goes on. */
  lemma OneEnd(step: nat -> Turn, m: nat, n: nat)
    requires After(step, m).Go? && !After(step, m + 1).Go? && After(step, n).Go? && !After(step, n + 1).Go?
    ensures m == n
  {
    hide After;
    if m < n {
      GoUntil(step, m + 1, n);
    } else if n < m {
      GoUntil(step, n + 1, m);
    }
  }

  lemma SameOutcome(step: nat -> Turn, m: nat, n: nat)
    requires !After(step, m).Go? && !After(step, n).Go?
    ensures After(step, m) == After(step, n)
  {
    OverStaysOver(step, if m < n then m else n, if m < n then n else m);
  }

  lemma {:induction false} SamePasses(step: nat -> Turn, i: nat, j: nat, k: nat)
    requires After(step, i) == After(step, j)
    ensures After(step, i + k) == After(step, j + k)
    decreases k
  {
    if k > 0 {
      SamePasses(step, i, j, k - 1);
    }
  }

  /** A loop that comes back to a place goes round forever. */
  lemma {:induction false} ComesBack(step: nat -> Turn, i: nat, j: nat, n: nat)
    requires i < j && After(step, i).Go? && After(step, i) == After(step, j)
    ensures After(step, n).Go?
    decreases n
  {
    hide After;
    if n <= j {
      GoUntil(step, n, j);
    } else {
      SamePasses(step, i, j, n - j);
      ComesBack(step, i, j, i + (n - j));
    }
  }

  /** Of more numbers than there are values two are equal. */
  lemma {:induction false} Pigeonhole(places: seq<nat>, m: nat) returns (i: nat, j: nat)
    requires |places| > m && forall k :: 0 <= k < |places| ==> places[k] < m
    ensures i < j < |places| && places[i] == places[j]
    decreases m
  {
    var last := |places| - 1;
    if k :| 0 <= k < last && places[k] == places[last] {
      i, j := k, last;
    } else {
      // the greatest value takes the place of the last one, which nothing else has
      var others := seq(last, k requires 0 <= k < last => if places[k] == m - 1 then places[last] else places[k]);
      i, j := Pigeonhole(others, m - 1);
    }
  }

  ghost predicate StaysBelow(step: nat -> Turn, m: nat) { forall n :: After(step, n).Go? ==> After(step, n).at < m }

  /** A loop over m places ends at all exactly when it ends within m passes. */
  lemma {:induction false} EndsInTimeOrNever(step: nat -> Turn, m: nat)
    requires StaysBelow(step, m)
    ensures !After(step, m).Go? <==> exists n: nat :: !After(step, n).Go?
  {
    hide After;
    if After(step, m).Go? {
      forall k: nat | k <= m ensures After(step, k).Go? {
        GoUntil(step, k, m);
      }
      var places: seq<nat> := seq(m + 1, k requires 0 <= k < m + 1 => After(step, k).at);
      var i, j := Pigeonhole(places, m);
      forall n: nat ensures After(step, n).Go? {
        ComesBack(step, i, j, n);
      }
    }
  }
}
