/** The packet-filter evaluator and a scan that it follows. */
module PktPattern {
  import opened Basics

  // The evaluator is a two-stack operator-precedence machine, driven by a table, on a list
  // of tokens in which every comparison is already true or false.

  datatype Op = AND | OR | NOT | LPA | RPA | CRS

  datatype Token = Cmp(holds: bool) | Sym(op: Op)

  datatype Priority = HIGHP | LOWP | EQUAP | ERRP

  /** The priority table: the operator on the stack against the one that comes. */
  function Compare(top: Op, next: Op): Priority {
    match top
    case AND => if next.NOT? || next.LPA? then LOWP else HIGHP
    case OR => if next.NOT? || next.LPA? then LOWP else HIGHP
    case NOT => if next.LPA? then LOWP else HIGHP
    case LPA => if next.RPA? then EQUAP else if next.CRS? then ERRP else LOWP
    case RPA => if next.LPA? then ERRP else HIGHP
    case CRS => if next.CRS? then EQUAP else if next.RPA? then ERRP else LOWP
  }

  lemma ClosingMarkIsNeverPushed()
    ensures forall top: Op :: Compare(top, CRS) != LOWP
  {
  }

  lemma ClosingParenthesisIsNeverPushed()
    ensures forall top: Op :: Compare(top, RPA) != LOWP
  {
  }

  function OneStepCalculate(op: Op, operand1: bool, operand2: bool): bool {
    match op
    case AND => if operand1 then operand2 else false
    case OR => if operand1 then true else operand2
    case NOT => if operand2 then false else true
    case _ => true
  }

  /** How the loop ends: normally, with the error value, or by popping a stack that
      is empty. */
  datatype Outcome = Done(operators: seq<Op>, operands: seq<bool>) | Failed | Underflow

  /** One pass of the loop: it ends, or goes on with the stacks as they are now, at
      the next token or at the same one. */
  datatype Pass = End(outcome: Outcome) | GoOn(advance: bool, operators: seq<Op>, operands: seq<bool>)

  function OnePass(t: Token, operators: seq<Op>, operands: seq<bool>): Pass {
    if operators == [] then End(Underflow)
    else
      var n, top := |operands|, operators[|operators| - 1];
      match t
      case Cmp(b) => GoOn(true, operators, operands + [b])
      case Sym(op) =>
        if op.CRS? && top.CRS? then End(Done(operators, operands))
        else match Compare(top, op)
          case HIGHP =>
            if n < 2 then End(Underflow)
            else GoOn(false, operators[..|operators| - 1],
                      operands[..n - 2] + [OneStepCalculate(top, operands[n - 2], operands[n - 1])])
          case LOWP => GoOn(true, operators + [op], if op.NOT? then operands + [true] else operands)
          case EQUAP => GoOn(true, operators[..|operators| - 1], operands)
          case ERRP => End(Failed)
  }

  /** So a closing parenthesis is never the top of the stack: its row of the table is not
      consulted. */
  lemma NoClosingOnStack(t: Token, operators: seq<Op>, operands: seq<bool>)
    requires RPA !in operators && OnePass(t, operators, operands).GoOn?
    ensures RPA !in OnePass(t, operators, operands).operators
  {
    ClosingParenthesisIsNeverPushed();
  }

  /** The loop of `Validate`, from any stack contents. Every pass takes a token or
      shortens the operator stack. */
  function Run(ts: seq<Token>, operators: seq<Op>, operands: seq<bool>): Outcome
    decreases |ts|, |operators|
  {
    if ts == [] then Done(operators, operands)
    else match OnePass(ts[0], operators, operands)
      case End(outcome) => outcome
      case GoOn(advance, operators', operands') => Run(if advance then ts[1..] else ts, operators', operands')
  }

  /** A pattern as the loop sees it: its tokens and the closing mark. */
  function Validated(ts: seq<Token>): Outcome { Run(ts + [Sym(CRS)], [CRS], []) }

  const EXPR_MAX_LEN: nat := 256

  class Evaluator {
    const operands: array<bool>
    const operators: array<Op>
    var operandTop: nat
    var operatorTop: nat

    ghost predicate Valid()
      reads this
    {
      && operands.Length == EXPR_MAX_LEN && operators.Length == EXPR_MAX_LEN
      && operandTop <= EXPR_MAX_LEN && operatorTop <= EXPR_MAX_LEN
    }

    ghost function Operands(): seq<bool>
      requires Valid()
      reads this, operands
    {
      operands[..operandTop]
    }

    ghost function Operators(): seq<Op>
      requires Valid()
      reads this, operators
    {
      operators[..operatorTop]
    }

    constructor ()
      ensures Valid() && fresh(operands) && fresh(operators)
      ensures Operands() == [] && Operators() == []
    {
      operands, operators := new bool[EXPR_MAX_LEN](_ => true), new Op[EXPR_MAX_LEN](_ => CRS);
      operandTop, operatorTop := 0, 0;
    }

    method PushOperandStack(value: bool)
      requires Valid() && operandTop < EXPR_MAX_LEN
      modifies this`operandTop, operands
      ensures Valid() && Operands() == old(Operands()) + [value]
    {
      operands[operandTop] := value;
      operandTop := operandTop + 1;
    }

    method PopOperandStack() returns (value: bool)
      requires Valid() && operandTop > 0
      modifies this`operandTop
      ensures Valid() && Operands() + [value] == old(Operands())
    {
      operandTop := operandTop - 1;
      value := operands[operandTop];
    }

    method PushOperatorStack(op: Op)
      requires Valid() && operatorTop < EXPR_MAX_LEN
      modifies this`operatorTop, operators
      ensures Valid() && Operators() == old(Operators()) + [op]
    {
      operators[operatorTop] := op;
      operatorTop := operatorTop + 1;
    }

    method PopOperatorStack() returns (op: Op)
      requires Valid() && operatorTop > 0
      modifies this`operatorTop
      ensures Valid() && Operators() + [op] == old(Operators())
    {
      operatorTop := operatorTop - 1;
      op := operators[operatorTop];
    }

    /** Applies the operator on top to the two operands on top. */
    method Reduce()
      requires Valid() && operatorTop > 0 && operandTop >= 2
      modifies this`operatorTop, this`operandTop, operands
      ensures Valid()
      ensures var ops, vals := old(Operators()), old(Operands());
              && Operators() == ops[..|ops| - 1]
              && Operands() == vals[..|vals| - 2]
                   + [OneStepCalculate(ops[|ops| - 1], vals[|vals| - 2], vals[|vals| - 1])]
    {
      hide OneStepCalculate;
      var current := PopOperatorStack();
      var operand2 := PopOperandStack();
      var operand1 := PopOperandStack();
      PushOperandStack(OneStepCalculate(current, operand1, operand2));
    }

    /** The body of the loop. The operator stack is never full when it is pushed. */
    method TakeToken(t: Token) returns (pass: Pass)
      requires Valid() && operandTop < EXPR_MAX_LEN && (operatorTop < EXPR_MAX_LEN || t == Sym(CRS))
      modifies this`operatorTop, this`operandTop, operators, operands
      ensures Valid() && pass == OnePass(t, old(Operators()), old(Operands()))
      ensures pass.End? ==> Operators() == old(Operators()) && Operands() == old(Operands())
      ensures pass.GoOn? ==> Operators() == pass.operators && Operands() == pass.operands
      ensures operandTop <= old(operandTop) + (if pass.GoOn? && pass.advance then 1 else 0)
      ensures operatorTop <= old(operatorTop) + (if pass.GoOn? && pass.advance && t != Sym(CRS) then 1 else 0)
      ensures pass.GoOn? && !pass.advance ==> operatorTop < old(operatorTop)
    {
      hide OneStepCalculate, Compare;
      ClosingMarkIsNeverPushed();
      if operatorTop == 0 {
        return End(Underflow);
      }
      var top := operators[operatorTop - 1];
      if t.Cmp? {
        PushOperandStack(t.holds);
        return GoOn(true, operators[..operatorTop], operands[..operandTop]);
      }
      var op := t.op;
      if op.CRS? && top.CRS? {
        return End(Done(operators[..operatorTop], operands[..operandTop]));
      }
      match Compare(top, op) {
        case HIGHP =>
          if operandTop < 2 {
            return End(Underflow);
          }
          Reduce();
          return GoOn(false, operators[..operatorTop], operands[..operandTop]);
        case LOWP =>
          PushOperatorStack(op);
          if op.NOT? {
            PushOperandStack(true);
          }
          return GoOn(true, operators[..operatorTop], operands[..operandTop]);
        case EQUAP =>
          var _ := PopOperatorStack();
          return GoOn(true, operators[..operatorTop], operands[..operandTop]);
        case ERRP =>
          return End(Failed);
      }
    }

    /** The value comes with the outcome: it is the operand that is left on top. The
        pattern is shorter than the stacks, as the caller has to ensure; then neither
        stack outgrows its array. */
    method Validate(ts: seq<Token>) returns (outcome: Outcome, value: bool)
      requires Valid() && |ts| < EXPR_MAX_LEN
      modifies this, operands, operators
      ensures Valid() && outcome == Validated(ts)
      ensures outcome.Done? && outcome.operands != [] ==> value == outcome.operands[|outcome.operands| - 1]
    {
      hide OnePass;
      var input := ts + [Sym(CRS)];
      operatorTop, operandTop, value := 0, 0, false;
      PushOperatorStack(CRS);
      var pos := 0;
      outcome := Done([CRS], []);
      assert input[0..] == input && Operators() == [CRS] && Operands() == [];
      while pos < |input|
        invariant Valid() && 0 <= pos <= |input| && operandTop <= pos
        invariant operatorTop <= if pos < |input| then pos + 1 else pos
        invariant Validated(ts) == Run(input[pos..], Operators(), Operands())
        decreases |input| - pos, operatorTop
      {
        assert input[pos..][0] == input[pos] && input[pos..][1..] == input[pos + 1..];
        var pass := TakeToken(input[pos]);
        if pass.End? {
          outcome := pass.outcome;
          if outcome.Done? && |outcome.operands| > 0 {
            value := outcome.operands[|outcome.operands| - 1];
          }
          return;
        }
        if pass.advance {
          pos := pos + 1;
        }
      }
      outcome := Done(operators[..operatorTop], operands[..operandTop]);
      if operandTop > 0 {
        value := operands[operandTop - 1];
      }
    }
  }

  // ----- What the loop does, frame by frame -----

  /** What is pending behind one open parenthesis, or behind the start: a left operand
      with its operator, and a negation with its dummy operand. */
  datatype Frame = Frame(left: Left, neg: Negation)

  datatype Left = Nothing | Pending(op: Op, value: bool)

  datatype Negation = Positive | Negative(dummy: bool)

  /** Where the scan is: an operand is due, an operand is due right after NOT, or an
      operand has just been read. */
  datatype Mode = Due | DueAfterNot | Have(value: bool)

  predicate Binary(op: Op) { op.AND? || op.OR? }

  function FrameOps(base: Op, f: Frame): seq<Op> {
    [base] + (if f.left.Pending? then [f.left.op] else []) + (if f.neg.Negative? then [NOT] else [])
  }

  /** NOT takes a dummy left operand along, which is true unless something destroys it. */
  function FrameVals(f: Frame): seq<bool> {
    (if f.left.Pending? then [f.left.value] else []) + (if f.neg.Negative? then [f.neg.dummy] else [])
  }

  function Ops(frames: seq<Frame>): seq<Op> {
    if frames == [] then []
    else
      var n := |frames| - 1;
      Ops(frames[..n]) + FrameOps(if n == 0 then CRS else LPA, frames[n])
  }

  function Vals(frames: seq<Frame>): seq<bool> {
    if frames == [] then []
    else
      var n := |frames| - 1;
      Vals(frames[..n]) + FrameVals(frames[n])
  }

  /** The operand v with everything that is pending in the frame applied to it. */
  function Closed(f: Frame, v: bool): bool {
    var x := if f.neg.Negative? then !v else v;
    match f.left
    case Nothing => x
    case Pending(op, l) => if op.AND? then l && x else l || x
  }

  // ----- The reference: frames instead of two stacks -----

  /** The last frame gets a left operand, a negation, or a new frame inside it. */
  function WithLeft(frames: seq<Frame>, op: Op, v: bool): seq<Frame>
    requires frames != []
  {
    frames[..|frames| - 1] + [Frame(Pending(op, v), Positive)]
  }

  function WithNeg(frames: seq<Frame>, neg: Negation): seq<Frame>
    requires frames != []
  {
    frames[..|frames| - 1] + [frames[|frames| - 1].(neg := neg)]
  }

  function Negated(frames: seq<Frame>): seq<Frame>
    requires frames != []
  {
    WithNeg(frames, Negative(true))
  }

  function Opened(frames: seq<Frame>): seq<Frame> { frames + [Frame(Nothing, Positive)] }

  /** Whether any operand or dummy is pending at all. */
  predicate Holds(frames: seq<Frame>) {
    frames != [] &&
    var f := frames[|frames| - 1];
    f.neg.Negative? || f.left.Pending? || Holds(frames[..|frames| - 1])
  }

  /** The nearest pending operand or dummy becomes false. */
  function Struck(frames: seq<Frame>): (r: seq<Frame>)
    ensures |r| == |frames|
  {
    if frames == [] then []
    else
      var n := |frames| - 1;
      var f := frames[n];
      if f.neg.Negative? then frames[..n] + [f.(neg := Negative(false))]
      else if f.left.Pending? then frames[..n] + [f.(left := Pending(f.left.op, false))]
      else Struck(frames[..n]) + [f]
  }

  /** How the scan of the remaining tokens ends: with a value, at parentheses that do not
      match, at a NOT that finds nothing below it, or at a token that cannot come here. */
  datatype Answer = Value(value: bool) | Mismatch | Starved | Malformed

  /** A NOT behind a NOT reduces the one before it: that takes the nearest operand below
      as its left operand and leaves the negated dummy in its place. */
  function Scan(ts: seq<Token>, frames: seq<Frame>, mode: Mode): Answer
    requires frames != []
    decreases |ts|
  {
    var n := |frames| - 1;
    var f := frames[n];
    if ts == [] then
      if !mode.Have? then Malformed else if n > 0 then Mismatch else Value(Closed(f, mode.value))
    else match ts[0]
      case Cmp(b) => if mode.Have? then Malformed else Scan(ts[1..], frames, Have(b))
      case Sym(op) =>
        match op
        case AND => if mode.Have? then Scan(ts[1..], WithLeft(frames, AND, Closed(f, mode.value)), Due) else Malformed
        case OR => if mode.Have? then Scan(ts[1..], WithLeft(frames, OR, Closed(f, mode.value)), Due) else Malformed
        case NOT =>
          if mode.Have? then Malformed
          else if mode.Due? then Scan(ts[1..], Negated(frames), DueAfterNot)
          else if !Holds(WithNeg(frames, Positive)) then Starved
          else Scan(ts[1..], Negated(Struck(WithNeg(frames, Positive))), DueAfterNot)
        case LPA => if mode.Have? then Malformed else Scan(ts[1..], Opened(frames), Due)
        case RPA =>
          if !mode.Have? then Malformed
          else if n == 0 then Mismatch
          else Scan(ts[1..], frames[..n], Have(Closed(f, mode.value)))
        case CRS => Malformed
  }

  // ----- The machine agrees with the reference -----

  /** An operator that may follow an operand; it lets everything pending go first. */
  predicate Follows(op: Op) { Binary(op) || op.RPA? || op.CRS? }

  lemma {:induction false} OneRun(t: Token, ts: seq<Token>, operators: seq<Op>, operands: seq<bool>)
    ensures Run([t] + ts, operators, operands) ==
            match OnePass(t, operators, operands)
            case End(outcome) => outcome
            case GoOn(advance, ops, vals) => Run(if advance then ts else [t] + ts, ops, vals)
  {
    assert ([t] + ts)[1..] == ts;
  }

  lemma {:induction false} PopNot(op: Op, ts: seq<Token>, ops: seq<Op>, vals: seq<bool>, d: bool, v: bool)
    requires Follows(op) || op.NOT?
    ensures Run([Sym(op)] + ts, ops + [NOT], vals + [d] + [v]) == Run([Sym(op)] + ts, ops, vals + [!v])
  {
    OneRun(Sym(op), ts, ops + [NOT], vals + [d] + [v]);
    assert (ops + [NOT])[..|ops|] == ops;
    assert (vals + [d] + [v])[..|vals|] == vals;
  }

  lemma {:induction false} PopBinary(op: Op, ts: seq<Token>, ops: seq<Op>, b: Op, vals: seq<bool>, l: bool, v: bool)
    requires Follows(op) && Binary(b)
    ensures Run([Sym(op)] + ts, ops + [b], vals + [l] + [v]) ==
            Run([Sym(op)] + ts, ops, vals + [if b.AND? then l && v else l || v])
  {
    OneRun(Sym(op), ts, ops + [b], vals + [l] + [v]);
    assert (ops + [b])[..|ops|] == ops;
    assert (vals + [l] + [v])[..|vals|] == vals;
  }

  /** All that is pending in the last frame is applied before the operator is looked
      at against the frame's base. */
  lemma {:induction false} CloseFrame(
      op: Op, ts: seq<Token>, ops: seq<Op>, base: Op, f: Frame, vals: seq<bool>, v: bool)
    requires Follows(op) && (f.left.Pending? ==> Binary(f.left.op))
    ensures Run([Sym(op)] + ts, ops + FrameOps(base, f), vals + FrameVals(f) + [v]) ==
            Run([Sym(op)] + ts, ops + [base], vals + [Closed(f, v)])
  {
    hide Run;
    var left := if f.left.Pending? then [f.left.op] else [];
    var leftVal := if f.left.Pending? then [f.left.value] else [];
    var x := if f.neg.Negative? then !v else v;
    if f.neg.Negative? {
      assert ops + FrameOps(base, f) == ops + [base] + left + [NOT];
      assert vals + FrameVals(f) + [v] == vals + leftVal + [f.neg.dummy] + [v];
      PopNot(op, ts, ops + [base] + left, vals + leftVal, f.neg.dummy, v);
    } else {
      assert ops + FrameOps(base, f) == ops + [base] + left;
      assert vals + FrameVals(f) + [v] == vals + leftVal + [v];
    }
    match f.left
    case Nothing =>
      assert ops + [base] + left == ops + [base] && vals + leftVal == vals;
    case Pending(b, l) =>
      PopBinary(op, ts, ops + [base], b, vals, l, x);
  }

  function Base(n: nat): Op { if n == 0 then CRS else LPA }

  function Current(mode: Mode): seq<bool> { if mode.Have? then [mode.value] else [] }

  ghost predicate Scanning(frames: seq<Frame>, mode: Mode) {
    && frames != []
    && (forall i :: 0 <= i < |frames| && frames[i].left.Pending? ==> Binary(frames[i].left.op))
    && (mode.Due? ==> frames[|frames| - 1].neg.Positive?)
    && (mode.DueAfterNot? ==> frames[|frames| - 1].neg == Negative(true))
  }

  ghost function Expected(answer: Answer): Outcome
    requires !answer.Malformed?
  {
    if answer.Value? then Done([CRS], [answer.value]) else if answer.Starved? then Underflow else Failed
  }

  lemma {:induction false} StacksOf(frames: seq<Frame>)
    requires frames != []
    ensures var n := |frames| - 1;
            && Ops(frames) == Ops(frames[..n]) + FrameOps(Base(n), frames[n])
            && Vals(frames) == Vals(frames[..n]) + FrameVals(frames[n])
  {
  }

  lemma StacksWithLeft(frames: seq<Frame>, op: Op, v: bool)
    requires frames != []
    ensures Ops(WithLeft(frames, op, v)) == Ops(frames[..|frames| - 1]) + [Base(|frames| - 1)] + [op]
    ensures Vals(WithLeft(frames, op, v)) == Vals(frames[..|frames| - 1]) + [v]
  {
    var n := |frames| - 1;
    var next := WithLeft(frames, op, v);
    assert next[..n] == frames[..n] && next[n] == Frame(Pending(op, v), Positive);
    StacksOf(next);
    hide Ops, Vals;
    assert FrameOps(Base(n), next[n]) == [Base(n)] + [op] && FrameVals(next[n]) == [v];
    assert Ops(frames[..n]) + ([Base(n)] + [op]) == Ops(frames[..n]) + [Base(n)] + [op];
  }

  lemma {:induction false} StacksNegated(frames: seq<Frame>)
    requires frames != [] && frames[|frames| - 1].neg.Positive?
    ensures Ops(Negated(frames)) == Ops(frames) + [NOT] && Vals(Negated(frames)) == Vals(frames) + [true]
  {
    var n := |frames| - 1;
    var f, g := frames[n], frames[n].(neg := Negative(true));
    var next := Negated(frames);
    assert next[..n] == frames[..n] && next[n] == g;
    StacksOf(frames);
    StacksOf(next);
    hide Ops, Vals;
    assert FrameOps(Base(n), g) == FrameOps(Base(n), f) + [NOT] && FrameVals(g) == FrameVals(f) + [true];
    hide FrameOps, FrameVals;
    assert Ops(frames[..n]) + (FrameOps(Base(n), f) + [NOT]) == Ops(frames[..n]) + FrameOps(Base(n), f) + [NOT];
    assert Vals(frames[..n]) + (FrameVals(f) + [true]) == Vals(frames[..n]) + FrameVals(f) + [true];
  }

  /** Only the last operand on the stack changes. */
  lemma {:induction false} StacksStruck(frames: seq<Frame>)
    ensures Ops(Struck(frames)) == Ops(frames)
    ensures Holds(frames) <==> Vals(frames) != []
    ensures Holds(frames) ==> Vals(Struck(frames)) == Vals(frames)[..|Vals(frames)| - 1] + [false]
  {
    if frames != [] {
      var n := |frames| - 1;
      var f, next := frames[n], Struck(frames);
      if f.neg.Negative? || f.left.Pending? {
        LastStruck(frames);
      } else {
        StacksStruck(frames[..n]);
        StacksOf(frames);
        StacksOf(next);
        assert next[..n] == Struck(frames[..n]) && next[n] == f && FrameVals(f) == [];
        hide Ops, Vals, FrameOps, FrameVals;
        assert Vals(frames) == Vals(frames[..n]);
      }
    }
  }

  lemma LastStruck(frames: seq<Frame>)
    requires frames != []
    requires var f := frames[|frames| - 1]; f.neg.Negative? || f.left.Pending?
    ensures Ops(Struck(frames)) == Ops(frames) && Vals(frames) != []
    ensures Vals(Struck(frames)) == Vals(frames)[..|Vals(frames)| - 1] + [false]
  {
    hide Struck, Ops, Vals, FrameOps, FrameVals;
    var n := |frames| - 1;
    LastFrameStruck(frames);
    StacksOf(frames);
    StacksOf(Struck(frames));
    SameUpToLast(Vals(frames[..n]), FrameVals(frames[n]));
  }

  lemma LastFrameStruck(frames: seq<Frame>)
    requires frames != []
    requires var f := frames[|frames| - 1]; f.neg.Negative? || f.left.Pending?
    ensures var n := |frames| - 1;
            var f, next := frames[n], Struck(frames);
            && |next| == n + 1 && next[..n] == frames[..n] && FrameVals(f) != []
            && FrameVals(next[n]) == FrameVals(f)[..|FrameVals(f)| - 1] + [false]
            && FrameOps(Base(n), next[n]) == FrameOps(Base(n), f)
  {
  }

  lemma SameUpToLast(a: seq<bool>, b: seq<bool>)
    requires b != []
    ensures var m := |b| - 1;
            (a + b)[..|a + b| - 1] + [false] == a + (b[..m] + [false])
  {
  }

  lemma {:induction false} StacksOpened(frames: seq<Frame>)
    requires frames != []
    ensures Ops(Opened(frames)) == Ops(frames) + [LPA] && Vals(Opened(frames)) == Vals(frames)
  {
    assert Opened(frames)[..|frames|] == frames;
    StacksOf(Opened(frames));
    assert FrameOps(LPA, Frame(Nothing, Positive)) == [LPA] && FrameVals(Frame(Nothing, Positive)) == [];
  }

  lemma PassAtBase(op: Op, ops: seq<Op>, n: nat, vals: seq<bool>)
    requires Follows(op)
    ensures OnePass(Sym(op), ops + [Base(n)], vals) ==
            if Binary(op) then GoOn(true, ops + [Base(n)] + [op], vals)
            else if n == 0 then End(if op.CRS? then Done(ops + [CRS], vals) else Failed)
            else if op.RPA? then GoOn(true, ops, vals) else End(Failed)
  {
    assert (ops + [Base(n)])[..|ops|] == ops;
  }

  lemma PassOnPrefix(op: Op, ops: seq<Op>, vals: seq<bool>)
    requires ops != [] && (op.LPA? || (op.NOT? && ops[|ops| - 1] != NOT)) && ops[|ops| - 1] != RPA
    ensures OnePass(Sym(op), ops, vals) == GoOn(true, ops + [op], if op.NOT? then vals + [true] else vals)
  {
  }

  /** What is on the stacks before the token is looked at. */
  ghost predicate Agrees(ts: seq<Token>, frames: seq<Frame>, mode: Mode)
    requires Scanning(frames, mode)
  {
    !Scan(ts, frames, mode).Malformed? ==>
      Run(ts + [Sym(CRS)], Ops(frames), Vals(frames) + Current(mode)) == Expected(Scan(ts, frames, mode))
  }

  lemma AtEnd(frames: seq<Frame>, mode: Mode)
    requires Scanning(frames, mode)
    ensures Agrees([], frames, mode)
  {
    if mode.Have? {
      var n := |frames| - 1;
      var ops, vals, v := Ops(frames[..n]), Vals(frames[..n]), Closed(frames[n], mode.value);
      assert [] + [Sym(CRS)] == [Sym(CRS)] + [];
      StacksOf(frames);
      CloseFrame(CRS, [], ops, Base(n), frames[n], vals, mode.value);
      OneRun(Sym(CRS), [], ops + [Base(n)], vals + [v]);
      PassAtBase(CRS, ops, n, vals + [v]);
      hide Run, OnePass, Closed, FrameOps, FrameVals;
      assert Vals(frames) + [mode.value] == vals + FrameVals(frames[n]) + [mode.value];
      if n == 0 {
        assert ops + [CRS] == [CRS] && vals + [v] == [v];
      }
    }
  }

  lemma OnComparison(b: bool, ts: seq<Token>, frames: seq<Frame>, mode: Mode)
    requires Scanning(frames, mode) && !mode.Have? && Agrees(ts, frames, Have(b))
    ensures Agrees([Cmp(b)] + ts, frames, mode)
  {
    var rest := ts + [Sym(CRS)];
    assert [Cmp(b)] + ts + [Sym(CRS)] == [Cmp(b)] + rest;
    assert ([Cmp(b)] + ts)[1..] == ts;
    assert Vals(frames) + [] + [b] == Vals(frames) + [b];
    StacksOf(frames);
    assert Ops(frames) != [];
    OneRun(Cmp(b), rest, Ops(frames), Vals(frames) + []);
  }

  lemma {:induction false} TopOfStack(frames: seq<Frame>)
    requires Scanning(frames, Have(false))
    ensures var ops := Ops(frames);
            && ops != [] && ops[|ops| - 1] != RPA
            && (ops[|ops| - 1] == NOT <==> frames[|frames| - 1].neg.Negative?)
  {
    StacksOf(frames);
  }

  lemma OnPrefix(op: Op, ts: seq<Token>, frames: seq<Frame>, mode: Mode)
    requires Scanning(frames, mode) && !mode.Have? && ((op.NOT? && mode.Due?) || op.LPA?)
    requires if op.NOT? then Agrees(ts, Negated(frames), DueAfterNot) else Agrees(ts, Opened(frames), Due)
    ensures Agrees([Sym(op)] + ts, frames, mode)
  {
    hide Run, OnePass, Ops, Vals;
    var rest := ts + [Sym(CRS)];
    assert [Sym(op)] + ts + [Sym(CRS)] == [Sym(op)] + rest;
    assert ([Sym(op)] + ts)[1..] == ts;
    assert Vals(frames) + [] == Vals(frames) && Vals(frames) + [true] + [] == Vals(frames) + [true];
    TopOfStack(frames);
    if op.NOT? {
      StacksNegated(frames);
    } else {
      StacksOpened(frames);
    }
    PassOnPrefix(op, Ops(frames), Vals(frames));
    OneRun(Sym(op), rest, Ops(frames), Vals(frames));
  }

  /** The frames below a NOT, and the stacks with that NOT on top of them. */
  lemma BelowNot(frames: seq<Frame>)
    requires Scanning(frames, DueAfterNot)
    ensures var below := WithNeg(frames, Positive);
            && Scanning(below, Due) && Negated(below) == frames
            && Ops(frames) == Ops(below) + [NOT] && Vals(frames) == Vals(below) + [true]
  {
    var below := WithNeg(frames, Positive);
    assert Negated(below) == frames;
    StacksNegated(below);
  }

  lemma {:induction false} StruckIsScanning(frames: seq<Frame>)
    requires frames != [] && Scanning(frames, Have(false))
    ensures Scanning(Struck(frames), Have(false))
  {
    var n := |frames| - 1;
    if frames[n].neg.Positive? && frames[n].left.Nothing? && n > 0 {
      StruckIsScanning(frames[..n]);
    }
  }

  lemma OnSecondNot(ts: seq<Token>, frames: seq<Frame>)
    requires Scanning(frames, DueAfterNot)
    requires var below := WithNeg(frames, Positive);
             Holds(below) ==> Scanning(Negated(Struck(below)), DueAfterNot)
                              && Agrees(ts, Negated(Struck(below)), DueAfterNot)
    ensures Agrees([Sym(NOT)] + ts, frames, DueAfterNot)
  {
    hide Run, OnePass, Ops, Vals;
    var below := WithNeg(frames, Positive);
    var rest := ts + [Sym(CRS)];
    var next := Struck(below);
    assert [Sym(NOT)] + ts + [Sym(CRS)] == [Sym(NOT)] + rest;
    assert ([Sym(NOT)] + ts)[1..] == ts;
    BelowNot(frames);
    StacksStruck(below);
    StruckIsScanning(below);
    assert Vals(frames) + [] == Vals(frames);
    if Holds(below) {
      var m := |Vals(below)| - 1;
      var init, x := Vals(below)[..m], Vals(below)[m];
      assert Vals(below) == init + [x];
      PopNot(NOT, rest, Ops(below), init, x, true);
      TopOfStack(next);
      StacksNegated(next);
      PassOnPrefix(NOT, Ops(next), Vals(next));
      OneRun(Sym(NOT), rest, Ops(next), Vals(next));
      assert Vals(next) + [true] + [] == Vals(next) + [true];
    } else {
      StarvesOnNot(rest, Ops(below));
      assert Vals(frames) == [true];
    }
  }

  lemma StarvesOnNot(ts: seq<Token>, ops: seq<Op>)
    ensures Run([Sym(NOT)] + ts, ops + [NOT], [true]) == Underflow
  {
    OneRun(Sym(NOT), ts, ops + [NOT], [true]);
  }

  lemma OnBinary(op: Op, ts: seq<Token>, frames: seq<Frame>, v: bool)
    requires Scanning(frames, Have(v)) && Binary(op)
    requires Agrees(ts, WithLeft(frames, op, Closed(frames[|frames| - 1], v)), Due)
    ensures Agrees([Sym(op)] + ts, frames, Have(v))
  {
    hide Run, Closed, OnePass, FrameOps, FrameVals;
    var n := |frames| - 1;
    var ops, vals, w := Ops(frames[..n]), Vals(frames[..n]), Closed(frames[n], v);
    var rest := ts + [Sym(CRS)];
    assert [Sym(op)] + ts + [Sym(CRS)] == [Sym(op)] + rest;
    assert ([Sym(op)] + ts)[1..] == ts;
    StacksOf(frames);
    hide Ops, Vals;
    StacksWithLeft(frames, op, w);
    CloseFrame(op, rest, ops, Base(n), frames[n], vals, v);
    PassAtBase(op, ops, n, vals + [w]);
    OneRun(Sym(op), rest, ops + [Base(n)], vals + [w]);
    assert vals + [w] + [] == vals + [w];
  }

  lemma OnClosing(ts: seq<Token>, frames: seq<Frame>, v: bool)
    requires Scanning(frames, Have(v))
    requires |frames| > 1 ==> Scanning(frames[..|frames| - 1], Have(v))
                              && Agrees(ts, frames[..|frames| - 1], Have(Closed(frames[|frames| - 1], v)))
    ensures Agrees([Sym(RPA)] + ts, frames, Have(v))
  {
    hide Run, Closed, OnePass, FrameOps, FrameVals;
    var n := |frames| - 1;
    var ops, vals, w := Ops(frames[..n]), Vals(frames[..n]), Closed(frames[n], v);
    var rest := ts + [Sym(CRS)];
    assert [Sym(RPA)] + ts + [Sym(CRS)] == [Sym(RPA)] + rest;
    assert ([Sym(RPA)] + ts)[1..] == ts;
    StacksOf(frames);
    hide Ops, Vals;
    CloseFrame(RPA, rest, ops, Base(n), frames[n], vals, v);
    PassAtBase(RPA, ops, n, vals + [w]);
    OneRun(Sym(RPA), rest, ops + [Base(n)], vals + [w]);
  }

  predicate MayCome(t: Token, mode: Mode) {
    match t
    case Cmp(_) => !mode.Have?
    case Sym(op) => if op.NOT? || op.LPA? then !mode.Have? else mode.Have? && !op.CRS?
  }

  lemma PlacedOrMalformed(ts: seq<Token>, frames: seq<Frame>, mode: Mode)
    requires ts != [] && Scanning(frames, mode)
    ensures MayCome(ts[0], mode) || Agrees(ts, frames, mode)
  {
    hide Run, Ops, Vals, WithLeft, Closed, Struck;
  }

  /** On every token sequence without a misplaced token the machine ends as the
      reference does; it pops an empty stack exactly where the reference starves. */
  lemma {:induction false} MachineFollowsScan(ts: seq<Token>, frames: seq<Frame>, mode: Mode)
    requires Scanning(frames, mode)
    ensures Agrees(ts, frames, mode)
    decreases |ts|, 1
  {
    hide Scan, Agrees, Closed, Struck, Holds, Scanning;
    if ts == [] {
      AtEnd(frames, mode);
    } else {
      PlacedOrMalformed(ts, frames, mode);
      if MayCome(ts[0], mode) {
        assert ts == [ts[0]] + ts[1..];
        match ts[0]
        case Cmp(b) =>
          StillScanning(frames, mode, Have(b));
          MachineFollowsScan(ts[1..], frames, Have(b));
          OnComparison(b, ts[1..], frames, mode);
        case Sym(op) =>
          if mode.Have? {
            FollowsBehindOperand(op, ts[1..], frames, mode.value);
          } else {
            FollowsWhereDue(op, ts[1..], frames, mode);
          }
      }
    }
  }

  lemma StillScanning(frames: seq<Frame>, mode: Mode, next: Mode)
    requires Scanning(frames, mode) && next.Have?
    ensures Scanning(frames, next)
  {
  }

  lemma {:induction false} FollowsWhereDue(op: Op, ts: seq<Token>, frames: seq<Frame>, mode: Mode)
    requires Scanning(frames, mode) && !mode.Have? && (op.NOT? || op.LPA?)
    ensures Agrees([Sym(op)] + ts, frames, mode)
    decreases |ts| + 1, 0
  {
    hide Scan, Agrees, Struck, Holds, Opened, Negated, Scanning, WithNeg;
    if op.LPA? {
      OpenedIsScanning(frames, mode);
      MachineFollowsScan(ts, Opened(frames), Due);
      OnPrefix(op, ts, frames, mode);
    } else if mode.Due? {
      NegatedIsScanning(frames, mode);
      MachineFollowsScan(ts, Negated(frames), DueAfterNot);
      OnPrefix(op, ts, frames, mode);
    } else {
      BelowIsScanning(frames);
      var below := WithNeg(frames, Positive);
      if Holds(below) {
        MachineFollowsScan(ts, Negated(Struck(below)), DueAfterNot);
      }
      OnSecondNot(ts, frames);
    }
  }

  lemma OpenedIsScanning(frames: seq<Frame>, mode: Mode)
    requires Scanning(frames, mode)
    ensures Scanning(Opened(frames), Due)
  {
  }

  lemma NegatedIsScanning(frames: seq<Frame>, mode: Mode)
    requires Scanning(frames, mode)
    ensures frames != [] && Scanning(Negated(frames), DueAfterNot)
  {
  }

  lemma BelowIsScanning(frames: seq<Frame>)
    requires Scanning(frames, DueAfterNot)
    ensures frames != []
    ensures var below := WithNeg(frames, Positive);
            below != [] && Struck(below) != [] && Scanning(Negated(Struck(below)), DueAfterNot)
  {
    hide Struck;
    var below := WithNeg(frames, Positive);
    BelowNot(frames);
    StruckIsScanning(below);
    NegatedIsScanning(Struck(below), Have(false));
  }

  lemma {:induction false} FollowsBehindOperand(op: Op, ts: seq<Token>, frames: seq<Frame>, v: bool)
    requires Scanning(frames, Have(v)) && Follows(op) && !op.CRS?
    ensures Agrees([Sym(op)] + ts, frames, Have(v))
    decreases |ts| + 1, 0
  {
    hide Scan, Agrees, Closed;
    var n := |frames| - 1;
    if Binary(op) {
      MachineFollowsScan(ts, WithLeft(frames, op, Closed(frames[n], v)), Due);
      OnBinary(op, ts, frames, v);
    } else {
      if n > 0 {
        MachineFollowsScan(ts, frames[..n], Have(Closed(frames[n], v)));
      }
      OnClosing(ts, frames, v);
    }
  }
}
