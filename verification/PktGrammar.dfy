/** What a packet filter means, and what comes out of it. */
module PktGrammar {
  import opened PktPattern

  // NOT binds tightest, AND and OR have equal rank and group to the left, and any number
  // of NOTs may stand before an operand.

  datatype Expr = One(u: Unary) | Bin(l: Expr, op: Op, r: Unary)
  datatype Unary = Nots(k: nat, a: Atom)
  datatype Atom = Comparison(holds: bool) | Paren(e: Expr)

  predicate Grammatical(e: Expr) {
    match e
    case One(u) => GrammaticalAtom(u.a)
    case Bin(l, op, r) => Grammatical(l) && Binary(op) && GrammaticalAtom(r.a)
  }

  predicate GrammaticalAtom(a: Atom) { a.Paren? ==> Grammatical(a.e) }

  function Combined(op: Op, l: bool, r: bool): bool { if op.AND? then l && r else l || r }

  /** The value that the expression is written for. */
  function Eval(e: Expr): bool {
    match e
    case One(u) => EvalUnary(u)
    case Bin(l, op, r) => Combined(op, Eval(l), EvalUnary(r))
  }

  function EvalUnary(u: Unary): bool { if u.k % 2 == 1 then !EvalAtom(u.a) else EvalAtom(u.a) }

  function EvalAtom(a: Atom): bool { if a.Paren? then Eval(a.e) else a.holds }

  function NotTokens(k: nat): seq<Token> {
    if k == 0 then [] else [Sym(NOT)] + NotTokens(k - 1)
  }

  function Tokens(e: Expr): seq<Token> {
    match e
    case One(u) => UnaryTokens(u)
    case Bin(l, op, r) => Tokens(l) + [Sym(op)] + UnaryTokens(r)
  }

  function UnaryTokens(u: Unary): seq<Token> { NotTokens(u.k) + AtomTokens(u.a) }

  function AtomTokens(a: Atom): seq<Token> {
    match a
    case Comparison(b) => [Cmp(b)]
    case Paren(e) => [Sym(LPA)] + Tokens(e) + [Sym(RPA)]
  }

  const BOTTOM := Frame(Nothing, Positive)

  // ----- What the evaluator computes -----

  /** Whether reading the expression makes the operand false that was pending before it:
      its first operand stands behind two or more NOTs, or in parentheses with no NOT
      before them that would take the blow with its dummy. */
  predicate Strikes(e: Expr) {
    match e
    case One(u) => UnaryStrikes(u)
    case Bin(l, _, _) => Strikes(l)
  }

  predicate UnaryStrikes(u: Unary) { u.k >= 2 || (u.k == 0 && AtomStrikes(u.a)) }

  predicate AtomStrikes(a: Atom) { a.Paren? && Strikes(a.e) }

  /** The value that comes out: a run of NOTs negates once, and a left operand is lost
      when the right one strikes it. */
  function Actual(e: Expr): bool {
    match e
    case One(u) => ActualUnary(u)
    case Bin(l, op, r) => Combined(op, !UnaryStrikes(r) && Actual(l), ActualUnary(r))
  }

  function ActualUnary(u: Unary): bool { if u.k > 0 then !ActualAtom(u.a) else ActualAtom(u.a) }

  function ActualAtom(a: Atom): bool { if a.Paren? then Actual(a.e) else a.holds }

  /** The last frame once e has been read, the operand in hand apart. */
  function FrameAfter(e: Expr): Frame {
    match e
    case One(u) => Frame(Nothing, NegAfter(u))
    case Bin(l, op, r) => Frame(Pending(op, !UnaryStrikes(r) && Actual(l)), NegAfter(r))
  }

  function NegAfter(u: Unary): Negation { if u.k > 0 then Negative(!AtomStrikes(u.a)) else Positive }

  function Last(e: Expr): Unary { if e.One? then e.u else e.r }

  function StruckIf(strikes: bool, frames: seq<Frame>): (r: seq<Frame>)
    ensures |r| == |frames|
  {
    if strikes then Struck(frames) else frames
  }

  lemma {:induction false} ScanAtom(a: Atom, rest: seq<Token>, frames: seq<Frame>, mode: Mode)
    requires frames != [] && !mode.Have? && GrammaticalAtom(a)
    ensures Scan(AtomTokens(a) + rest, frames, mode) ==
            if AtomStrikes(a) && !Holds(frames) then Starved
            else Scan(rest, StruckIf(AtomStrikes(a), frames), Have(ActualAtom(a)))
    decreases a, 0
  {
    match a
    case Comparison(b) =>
      assert AtomTokens(a) + rest == [Cmp(b)] + rest && ([Cmp(b)] + rest)[1..] == rest;
    case Paren(e) =>
      var tail := [Sym(RPA)] + rest;
      var ts := AtomTokens(a) + rest;
      assert ts[0] == Sym(LPA) && ts[1..] == Tokens(e) + tail;
      ScanExpr(e, tail, frames);
      var after := StruckIf(Strikes(e), frames);
      assert tail[1..] == rest && (after + [FrameAfter(e)])[..|frames|] == after;
  }

  lemma {:induction false} StruckTwice(frames: seq<Frame>)
    ensures Struck(Struck(frames)) == Struck(frames)
    ensures Holds(Struck(frames)) == Holds(frames)
  {
    if frames != [] {
      var n := |frames| - 1;
      assert Struck(frames)[..n] == if frames[n].neg.Negative? || frames[n].left.Pending? then frames[..n]
                                    else Struck(frames[..n]);
      StruckTwice(frames[..n]);
    }
  }

  lemma {:induction false} StruckStaysPositive(frames: seq<Frame>)
    requires frames != [] && frames[|frames| - 1].neg.Positive?
    ensures Struck(frames)[|frames| - 1].neg.Positive? && WithNeg(Negated(frames), Positive) == frames
  {
    var n := |frames| - 1;
    assert frames[n].(neg := Positive) == frames[n];
    assert WithNeg(Negated(frames), Positive) == frames[..n] + [frames[n]];
  }

  /** More NOTs behind the first one. */
  lemma {:induction false} ScanMoreNots(j: nat, rest: seq<Token>, below: seq<Frame>)
    requires below != [] && below[|below| - 1].neg.Positive?
    ensures Scan(NotTokens(j) + rest, Negated(below), DueAfterNot) ==
            if j > 0 && !Holds(below) then Starved
            else Scan(rest, Negated(StruckIf(j > 0, below)), DueAfterNot)
    decreases j
  {
    var ts := NotTokens(j) + rest;
    if j == 0 {
      assert ts == rest;
    } else {
      assert ts[0] == Sym(NOT) && ts[1..] == NotTokens(j - 1) + rest;
      StruckStaysPositive(below);
      if Holds(below) {
        StruckTwice(below);
        ScanMoreNots(j - 1, rest, Struck(below));
      }
    }
  }

  lemma {:induction false} ScanNots(k: nat, rest: seq<Token>, all: seq<Frame>)
    requires k > 0 && all != [] && all[|all| - 1].neg.Positive?
    ensures Scan(NotTokens(k) + rest, all, Due) ==
            if k >= 2 && !Holds(all) then Starved
            else Scan(rest, Negated(StruckIf(k >= 2, all)), DueAfterNot)
  {
    hide Struck, StruckIf, Holds;
    var ts := NotTokens(k) + rest;
    assert ts[0] == Sym(NOT) && ts[1..] == NotTokens(k - 1) + rest;
    ScanMoreNots(k - 1, rest, all);
  }

  lemma {:induction false} ScanUnary(u: Unary, rest: seq<Token>, all: seq<Frame>)
    requires all != [] && all[|all| - 1].neg.Positive? && GrammaticalAtom(u.a)
    ensures Scan(UnaryTokens(u) + rest, all, Due) ==
            if UnaryStrikes(u) && !Holds(all) then Starved
            else Scan(rest, WithNeg(StruckIf(UnaryStrikes(u), all), NegAfter(u)), Have(ActualAtom(u.a)))
    decreases u, 1
  {
    var ts := AtomTokens(u.a) + rest;
    assert UnaryTokens(u) + rest == NotTokens(u.k) + ts;
    StruckStaysPositive(all);
    if u.k > 0 {
      ScanNots(u.k, ts, all);
      var below := StruckIf(u.k >= 2, all);
      ScanAtom(u.a, rest, Negated(below), DueAfterNot);
      assert StruckIf(AtomStrikes(u.a), Negated(below)) == WithNeg(below, NegAfter(u));
    } else {
      assert NotTokens(0) + ts == ts;
      ScanAtom(u.a, rest, all, Due);
      var after := StruckIf(AtomStrikes(u.a), all);
      var n := |all| - 1;
      assert after[n].neg == Positive && WithNeg(after, Positive) == after[..n] + [after[n]] == after;
    }
  }

  lemma {:induction false} ScanExpr(e: Expr, rest: seq<Token>, frames: seq<Frame>)
    requires Grammatical(e)
    ensures Scan(Tokens(e) + rest, frames + [BOTTOM], Due) ==
            if Strikes(e) && !Holds(frames) then Starved
            else Scan(rest, StruckIf(Strikes(e), frames) + [FrameAfter(e)], Have(ActualAtom(Last(e).a)))
    ensures Closed(FrameAfter(e), ActualAtom(Last(e).a)) == Actual(e)
    decreases e, 2
  {
    match e
    case One(u) =>
      ScanUnary(u, rest, frames + [BOTTOM]);
      BottomIsEmpty(frames);
      var after := StruckIf(UnaryStrikes(u), frames);
      assert WithNeg(after + [BOTTOM], NegAfter(u)) == after + [FrameAfter(e)];
    case Bin(l, op, r) =>
      var tail := [Sym(op)] + (UnaryTokens(r) + rest);
      assert Tokens(e) + rest == Tokens(l) + tail;
      ScanExpr(l, tail, frames);
      ScanRight(l, op, r, rest, StruckIf(Strikes(l), frames));
  }

  /** From the operator on, once the left operand has been read. */
  lemma {:induction false} ScanRight(l: Expr, op: Op, r: Unary, rest: seq<Token>, outer: seq<Frame>)
    requires Binary(op) && GrammaticalAtom(r.a) && Closed(FrameAfter(l), ActualAtom(Last(l).a)) == Actual(l)
    ensures Scan([Sym(op)] + (UnaryTokens(r) + rest), outer + [FrameAfter(l)], Have(ActualAtom(Last(l).a))) ==
            Scan(rest, outer + [FrameAfter(Bin(l, op, r))], Have(ActualAtom(r.a)))
    decreases r, 2
  {
    hide Closed, Scan, Actual, ActualAtom, NegAfter;
    var next := Frame(Pending(op, Actual(l)), Positive);
    assert (outer + [FrameAfter(l)])[..|outer|] == outer;
    ScanOperator(op, UnaryTokens(r) + rest, outer + [FrameAfter(l)], ActualAtom(Last(l).a));
    ScanUnary(r, rest, outer + [next]);
    assert (outer + [next])[..|outer|] == outer;
  }

  lemma {:induction false} ScanOperator(op: Op, ts: seq<Token>, frames: seq<Frame>, v: bool)
    requires Binary(op) && frames != []
    ensures Scan([Sym(op)] + ts, frames, Have(v)) ==
            Scan(ts, WithLeft(frames, op, Closed(frames[|frames| - 1], v)), Due)
  {
    assert ([Sym(op)] + ts)[1..] == ts;
  }

  lemma BottomIsEmpty(frames: seq<Frame>)
    ensures Holds(frames + [BOTTOM]) == Holds(frames) && Struck(frames + [BOTTOM]) == Struck(frames) + [BOTTOM]
  {
    assert (frames + [BOTTOM])[..|frames|] == frames;
  }

  /** What becomes of every expression: a stack runs empty exactly when it strikes what is
      not there, and otherwise exactly one operand and only the closing mark are left. */
  lemma {:induction false} EvaluatorComputes(e: Expr)
    requires Grammatical(e)
    ensures Validated(Tokens(e)) == if Strikes(e) then Underflow else Done([CRS], [Actual(e)])
  {
    assert Tokens(e) + [] == Tokens(e) && [] + [BOTTOM] == [BOTTOM] && [] + [FrameAfter(e)] == [FrameAfter(e)];
    ScanExpr(e, [], []);
    StartsAgreeing(Tokens(e));
  }

  lemma {:induction false} StartsAgreeing(ts: seq<Token>)
    ensures !Scan(ts, [BOTTOM], Due).Malformed? ==> Validated(ts) == Expected(Scan(ts, [BOTTOM], Due))
  {
    MachineFollowsScan(ts, [BOTTOM], Due);
    StacksOf([BOTTOM]);
    assert [BOTTOM][..0] == [] && Ops([]) == [] && Vals([]) == [];
    assert Ops([BOTTOM]) == [CRS] && Vals([BOTTOM]) + Current(Due) == [];
  }

  // ----- Expressions without NOT behind NOT -----

  predicate SingleNots(e: Expr) {
    match e
    case One(u) => SingleNotsUnary(u)
    case Bin(l, _, r) => SingleNots(l) && SingleNotsUnary(r)
  }

  predicate SingleNotsUnary(u: Unary) { u.k <= 1 && (u.a.Paren? ==> SingleNots(u.a.e)) }

  lemma {:induction false} SingleNotsMean(e: Expr)
    requires SingleNots(e)
    ensures !Strikes(e) && Actual(e) == Eval(e)
    decreases e, 1
  {
    match e
    case One(u) => SingleNotsMeanUnary(u);
    case Bin(l, _, r) =>
      SingleNotsMean(l);
      SingleNotsMeanUnary(r);
  }

  lemma {:induction false} SingleNotsMeanUnary(u: Unary)
    requires SingleNotsUnary(u)
    ensures !UnaryStrikes(u) && ActualUnary(u) == EvalUnary(u)
    decreases u, 0
  {
    if u.a.Paren? {
      SingleNotsMean(u.a.e);
    }
  }

  /** For every expression that writes no NOT behind a NOT the evaluator returns its value,
      with exactly that operand and only the closing mark left on the stacks. */
  lemma {:induction false} EvaluatorMeansGrammar(e: Expr)
    requires Grammatical(e) && SingleNots(e)
    ensures Validated(Tokens(e)) == Done([CRS], [Eval(e)])
  {
    EvaluatorComputes(e);
    SingleNotsMean(e);
  }

  // ----- Which token sequences are rejected -----

  datatype Place = OperandDue | AfterOperand

  /** Operators stand where an infix pattern has them: an operand, '(' or NOT where an
      operand is due, and AND, OR, ')' or the end after an operand. Whether the
      parentheses match is left open. */
  predicate Infix(ts: seq<Token>, place: Place) {
    if ts == [] then place.AfterOperand?
    else if place.AfterOperand? then
      ts[0].Sym? &&
      (if ts[0].op.RPA? then Infix(ts[1..], AfterOperand) else Binary(ts[0].op) && Infix(ts[1..], OperandDue))
    else match ts[0]
      case Cmp(_) => Infix(ts[1..], AfterOperand)
      case Sym(op) => (op.LPA? || op.NOT?) && Infix(ts[1..], OperandDue)
  }

  /** Every ')' has its '(' among the open ones, and none stays open. */
  predicate Matching(ts: seq<Token>, open: nat) {
    if ts == [] then open == 0
    else if ts[0] == Sym(LPA) then Matching(ts[1..], open + 1)
    else if ts[0] == Sym(RPA) then open > 0 && Matching(ts[1..], open - 1)
    else Matching(ts[1..], open)
  }

  predicate StartsWithNot(ts: seq<Token>) { ts != [] && ts[0] == Sym(NOT) }

  /** Nothing but opening parentheses stands before NOT NOT. */
  predicate OpensWithTwoNots(ts: seq<Token>) {
    ts != [] &&
    if ts[0] == Sym(LPA) then OpensWithTwoNots(ts[1..]) else StartsWithNot(ts) && StartsWithNot(ts[1..])
  }

  function PlaceOf(mode: Mode): Place { if mode.Have? then AfterOperand else OperandDue }

  /** Whether the scan will starve: nothing is pending yet, and NOT NOT comes next. */
  predicate WillStarve(ts: seq<Token>, frames: seq<Frame>, mode: Mode)
    requires frames != []
  {
    match mode
    case Due => !Holds(frames) && OpensWithTwoNots(ts)
    case DueAfterNot => !Holds(WithNeg(frames, Positive)) && StartsWithNot(ts)
    case Have(_) => false
  }

  lemma {:induction false} ScanVerdict(ts: seq<Token>, frames: seq<Frame>, mode: Mode)
    requires Scanning(frames, mode) && Infix(ts, PlaceOf(mode))
    ensures !Scan(ts, frames, mode).Malformed?
    ensures Scan(ts, frames, mode).Starved? <==> WillStarve(ts, frames, mode)
    ensures !WillStarve(ts, frames, mode) ==> (Scan(ts, frames, mode).Value? <==> Matching(ts, |frames| - 1))
    decreases |ts|
  {
    if ts != [] {
      var f := frames[|frames| - 1];
      match ts[0]
      case Cmp(b) => ScanVerdict(ts[1..], frames, Have(b));
      case Sym(op) =>
        if op.NOT? {
          NotVerdict(ts, frames, mode);
        } else if op.LPA? {
          BottomIsEmpty(frames);
          ScanVerdict(ts[1..], Opened(frames), Due);
        } else if op.RPA? {
          if |frames| > 1 {
            ScanVerdict(ts[1..], frames[..|frames| - 1], Have(Closed(f, mode.value)));
          }
        } else {
          ScanVerdict(ts[1..], WithLeft(frames, op, Closed(f, mode.value)), Due);
        }
    }
  }

  lemma {:induction false} NotVerdict(ts: seq<Token>, frames: seq<Frame>, mode: Mode)
    requires Scanning(frames, mode) && Infix(ts, PlaceOf(mode)) && StartsWithNot(ts) && !mode.Have?
    ensures !Scan(ts, frames, mode).Malformed?
    ensures Scan(ts, frames, mode).Starved? <==> WillStarve(ts, frames, mode)
    ensures !WillStarve(ts, frames, mode) ==> (Scan(ts, frames, mode).Value? <==> Matching(ts, |frames| - 1))
    decreases |ts|, 0
  {
    hide Holds, Struck;
    if mode.Due? {
      StruckStaysPositive(frames);
      ScanVerdict(ts[1..], Negated(frames), DueAfterNot);
    } else {
      var below := WithNeg(frames, Positive);
      StruckBelow(frames);
      if Holds(below) {
        ScanVerdict(ts[1..], Negated(Struck(below)), DueAfterNot);
      }
    }
  }

  lemma StruckBelow(frames: seq<Frame>)
    requires Scanning(frames, DueAfterNot)
    ensures var next := Struck(WithNeg(frames, Positive));
            && Scanning(Negated(next), DueAfterNot) && WithNeg(Negated(next), Positive) == next
            && Holds(next) == Holds(WithNeg(frames, Positive))
  {
    hide Struck, Holds, Ops, Vals;
    var below := WithNeg(frames, Positive);
    BelowNot(frames);
    StruckIsScanning(below);
    NegatedIsScanning(Struck(below), Have(false));
    StruckTwice(below);
    StruckStaysPositive(below);
    StruckStaysPositive(Struck(below));
  }

  /** Every infix token sequence ends in one of three ways: an empty stack is popped exactly
      when it opens with two NOTs; otherwise the error value is returned exactly when the
      parentheses do not match; otherwise one operand is left. */
  lemma {:induction false} RejectsExactlyMismatchedParentheses(ts: seq<Token>)
    requires Infix(ts, OperandDue)
    ensures Validated(ts).Underflow? <==> OpensWithTwoNots(ts)
    ensures Validated(ts).Failed? <==> !OpensWithTwoNots(ts) && !Matching(ts, 0)
    ensures Validated(ts).Done? ==> Validated(ts).operators == [CRS] && |Validated(ts).operands| == 1
  {
    assert !Holds([BOTTOM]) by {
      assert [BOTTOM][..0] == [];
    }
    ScanVerdict(ts, [BOTTOM], Due);
    StartsAgreeing(ts);
  }

  // ----- Every sequence that matches is an expression -----

  /** What stands before the current operand behind one open parenthesis: a left operand
      with its operator, and a number of NOTs. */
  datatype Seen = Seen(left: SeenLeft, nots: nat)
  datatype SeenLeft = NoLeft | LeftSide(e: Expr, op: Op)

  predicate GrammaticalSeen(s: Seen) { s.left.LeftSide? ==> Grammatical(s.left.e) && Binary(s.left.op) }

  function LeftTokens(s: Seen): seq<Token> {
    (if s.left.NoLeft? then [] else Tokens(s.left.e) + [Sym(s.left.op)]) + NotTokens(s.nots)
  }

  /** The tokens read so far, the operand in hand apart. */
  function Written(init: seq<Seen>, last: Seen): seq<Token>
    decreases |init|
  {
    var n := |init|;
    if n == 0 then LeftTokens(last)
    else Written(init[..n - 1], init[n - 1]) + [Sym(LPA)] + LeftTokens(last)
  }

  function Finished(s: Seen, a: Atom): Expr {
    match s.left
    case NoLeft => One(Nots(s.nots, a))
    case LeftSide(e, op) => Bin(e, op, Nots(s.nots, a))
  }

  lemma {:induction false} FinishedTokens(s: Seen, a: Atom)
    requires GrammaticalSeen(s) && GrammaticalAtom(a)
    ensures Grammatical(Finished(s, a)) && Tokens(Finished(s, a)) == LeftTokens(s) + AtomTokens(a)
  {
  }

  lemma {:induction false} OneMoreNot(k: nat)
    ensures NotTokens(k + 1) == NotTokens(k) + [Sym(NOT)]
  {
    if k > 0 {
      OneMoreNot(k - 1);
    }
  }

  /** The tokens read so far, the operand in hand included, and those to come. */
  function Whole(init: seq<Seen>, last: Seen, hand: seq<Atom>, ts: seq<Token>): seq<Token> {
    Written(init, last) + (if hand == [] then [] else AtomTokens(hand[0])) + ts
  }

  ghost predicate Read(init: seq<Seen>, last: Seen, hand: seq<Atom>, ts: seq<Token>) {
    && |hand| <= 1 && GrammaticalSeen(last) && (hand != [] ==> GrammaticalAtom(hand[0]))
    && (forall i :: 0 <= i < |init| ==> GrammaticalSeen(init[i]))
    && Infix(ts, if hand == [] then OperandDue else AfterOperand) && Matching(ts, |init|)
  }

  ghost predicate Writes(e: Expr, ts: seq<Token>) { Grammatical(e) && Tokens(e) == ts }

  lemma {:induction false} Parsed(ts: seq<Token>, init: seq<Seen>, last: Seen, hand: seq<Atom>) returns (e: Expr)
    requires Read(init, last, hand, ts)
    ensures Writes(e, Whole(init, last, hand, ts))
    decreases |ts|, 1
  {
    hide Written, LeftTokens;
    if ts == [] {
      e := ParsedEnd(init, last, hand[0]);
    } else {
      assert ts == [ts[0]] + ts[1..];
      match ts[0]
      case Cmp(b) =>
        e := Parsed(ts[1..], init, last, [Comparison(b)]);
        assert Whole(init, last, [Comparison(b)], ts[1..]) == Whole(init, last, [], ts);
      case Sym(op) =>
        if op.NOT? {
          e := ParsedNot(ts, init, last);
        } else if op.LPA? {
          e := ParsedOpening(ts, init, last);
        } else if op.RPA? {
          e := ParsedClosing(ts, init, last, hand[0]);
        } else {
          e := ParsedBinary(ts, init, last, hand[0], op);
        }
    }
  }

  lemma ParsedEnd(init: seq<Seen>, last: Seen, a: Atom) returns (e: Expr)
    requires Read(init, last, [a], [])
    ensures Writes(e, Whole(init, last, [a], []))
  {
    FinishedTokens(last, a);
    e := Finished(last, a);
    assert Whole([], last, [a], []) == LeftTokens(last) + AtomTokens(a);
  }

  lemma {:induction false} ParsedNot(ts: seq<Token>, init: seq<Seen>, last: Seen) returns (e: Expr)
    requires Read(init, last, [], ts) && StartsWithNot(ts)
    ensures Writes(e, Whole(init, last, [], ts))
    decreases |ts|, 0
  {
    var next := last.(nots := last.nots + 1);
    OneMoreNot(last.nots);
    assert LeftTokens(next) == LeftTokens(last) + [Sym(NOT)];
    hide LeftTokens;
    e := Parsed(ts[1..], init, next, []);
    assert Written(init, next) == Written(init, last) + [Sym(NOT)];
    assert ts == [ts[0]] + ts[1..];
    assert Whole(init, next, [], ts[1..]) == Whole(init, last, [], ts);
  }

  lemma {:induction false} ParsedOpening(ts: seq<Token>, init: seq<Seen>, last: Seen) returns (e: Expr)
    requires Read(init, last, [], ts) && ts != [] && ts[0] == Sym(LPA)
    ensures Writes(e, Whole(init, last, [], ts))
    decreases |ts|, 0
  {
    var next := Seen(NoLeft, 0);
    var seen := init + [last];
    assert seen[..|init|] == init && seen[|init|] == last;
    assert LeftTokens(next) == [];
    hide LeftTokens;
    e := Parsed(ts[1..], seen, next, []);
    assert Written(seen, next) == Written(init, last) + [Sym(LPA)];
    assert ts == [ts[0]] + ts[1..];
    assert Whole(seen, next, [], ts[1..]) == Whole(init, last, [], ts);
  }

  lemma {:induction false} ParsedBinary(ts: seq<Token>, init: seq<Seen>, last: Seen, a: Atom, op: Op)
    returns (e: Expr)
    requires Read(init, last, [a], ts) && ts != [] && ts[0] == Sym(op) && Binary(op)
    ensures Writes(e, Whole(init, last, [a], ts))
    decreases |ts|, 0
  {
    var left := Finished(last, a);
    var next := Seen(LeftSide(left, op), 0);
    FinishedTokens(last, a);
    assert LeftTokens(next) == Tokens(left) + [Sym(op)];
    hide LeftTokens, Finished;
    e := Parsed(ts[1..], init, next, []);
    assert Written(init, next) == Written(init, last) + AtomTokens(a) + [Sym(op)];
    assert ts == [ts[0]] + ts[1..];
    assert Whole(init, next, [], ts[1..]) == Whole(init, last, [a], ts);
  }

  lemma {:induction false} ParsedClosing(ts: seq<Token>, init: seq<Seen>, last: Seen, a: Atom) returns (e: Expr)
    requires Read(init, last, [a], ts) && ts != [] && ts[0] == Sym(RPA)
    ensures Writes(e, Whole(init, last, [a], ts))
    decreases |ts|, 0
  {
    var n := |init|;
    var outer, inner := init[..n - 1], init[n - 1];
    var closed := Paren(Finished(last, a));
    FinishedTokens(last, a);
    assert AtomTokens(closed) == [Sym(LPA)] + (LeftTokens(last) + AtomTokens(a)) + [Sym(RPA)];
    assert Written(init, last) == Written(outer, inner) + [Sym(LPA)] + LeftTokens(last);
    hide LeftTokens, AtomTokens, Written, Finished;
    e := Parsed(ts[1..], outer, inner, [closed]);
    assert ts == [Sym(RPA)] + ts[1..];
    Regroup(Written(outer, inner), LeftTokens(last), AtomTokens(a), ts[1..]);
  }

  lemma Regroup(w: seq<Token>, l: seq<Token>, a: seq<Token>, rest: seq<Token>)
    ensures w + ([Sym(LPA)] + (l + a) + [Sym(RPA)]) + rest == w + [Sym(LPA)] + l + a + ([Sym(RPA)] + rest)
  {
  }

  /** An infix sequence is accepted exactly when it writes an expression that strikes
      nothing before it, and the operand that is left is what that expression comes to. */
  lemma {:induction false} AcceptsExactlyTheGrammar(ts: seq<Token>)
    requires Infix(ts, OperandDue)
    ensures Validated(ts).Done? <==> exists e :: Writes(e, ts) && !Strikes(e)
    ensures forall e :: Writes(e, ts) ==>
              Validated(ts) == if Strikes(e) then Underflow else Done([CRS], [Actual(e)])
    ensures forall e :: Writes(e, ts) && SingleNots(e) ==> Validated(ts) == Done([CRS], [Eval(e)])
  {
    RejectsExactlyMismatchedParentheses(ts);
    if Validated(ts).Done? {
      var start := Seen(NoLeft, 0);
      var e := Parsed(ts, [], start, []);
      assert Whole([], start, [], ts) == ts;
      EvaluatorComputes(e);
      assert Writes(e, ts);
    }
    forall e | Writes(e, ts)
      ensures Validated(ts) == if Strikes(e) then Underflow else Done([CRS], [Actual(e)])
      ensures SingleNots(e) ==> Validated(ts) == Done([CRS], [Eval(e)])
    {
      EvaluatorComputes(e);
      if SingleNots(e) {
        EvaluatorMeansGrammar(e);
      }
    }
  }
}
