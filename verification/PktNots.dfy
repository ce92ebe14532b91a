/** NOT behind NOT: exactly which filters come to the value they are written for. */
module PktNots {
  import opened PktPattern
  import opened PktGrammar

  // ----- The same filter with other comparisons -----

  /** The expression without the outcomes of its comparisons. */
  function Shape(e: Expr): Expr {
    match e
    case One(u) => One(ShapeUnary(u))
    case Bin(l, op, r) => Bin(Shape(l), op, ShapeUnary(r))
  }

  function ShapeUnary(u: Unary): Unary { Nots(u.k, ShapeAtom(u.a)) }

  function ShapeAtom(a: Atom): Atom { if a.Paren? then Paren(Shape(a.e)) else Comparison(false) }

  /** Outcomes that give the expression the value v. */
  function Fill(e: Expr, v: bool): Expr {
    match e
    case One(u) => One(FillUnary(u, v))
    case Bin(l, op, r) => Bin(Fill(l, v), op, FillUnary(r, v))
  }

  function FillUnary(u: Unary, v: bool): Unary { Nots(u.k, FillAtom(u.a, if u.k % 2 == 1 then !v else v)) }

  function FillAtom(a: Atom, v: bool): Atom { if a.Paren? then Paren(Fill(a.e, v)) else Comparison(v) }

  lemma {:induction false} Filled(e: Expr, v: bool)
    ensures Shape(Fill(e, v)) == Shape(e) && Eval(Fill(e, v)) == v
    decreases e, 1
  {
    match e
    case One(u) => FilledUnary(u, v);
    case Bin(l, _, r) =>
      Filled(l, v);
      FilledUnary(r, v);
  }

  lemma {:induction false} FilledUnary(u: Unary, v: bool)
    ensures ShapeUnary(FillUnary(u, v)) == ShapeUnary(u) && EvalUnary(FillUnary(u, v)) == v
    decreases u, 0
  {
    if u.a.Paren? {
      Filled(u.a.e, if u.k % 2 == 1 then !v else v);
    }
  }

  // ----- The condition -----

  /** Whether an odd number of the runs of NOT that follow each other through nested
      parentheses, with nothing else between them, are even and not empty. Each such run
      negates although it should not, and two of them make up for each other. */
  predicate Twisted(u: Unary) {
    (u.k > 0 && u.k % 2 == 0) != (u.a.Paren? && u.a.e.One? && Twisted(u.a.e.u))
  }

  /** No chain of NOTs is twisted, and no right operand strikes its left one. */
  predicate Right(e: Expr) {
    match e
    case One(u) => !Twisted(u) && RightInside(u)
    case Bin(l, _, r) => Right(l) && !UnaryStrikes(r) && !Twisted(r) && RightInside(r)
  }

  /** What stands at the end of the chain of NOTs is right. */
  predicate RightInside(u: Unary) {
    u.a.Paren? ==> if u.a.e.One? then RightInside(u.a.e.u) else Right(u.a.e)
  }

  lemma {:induction false} ShapeDecides(e: Expr)
    ensures Grammatical(Shape(e)) == Grammatical(e) && Strikes(Shape(e)) == Strikes(e)
    ensures Right(Shape(e)) == Right(e)
    decreases e, 1
  {
    match e
    case One(u) => ShapeDecidesUnary(u);
    case Bin(l, _, r) =>
      ShapeDecides(l);
      ShapeDecidesUnary(r);
  }

  lemma {:induction false} ShapeDecidesUnary(u: Unary)
    ensures GrammaticalAtom(ShapeAtom(u.a)) == GrammaticalAtom(u.a)
    ensures UnaryStrikes(ShapeUnary(u)) == UnaryStrikes(u)
    ensures Twisted(ShapeUnary(u)) == Twisted(u) && RightInside(ShapeUnary(u)) == RightInside(u)
    decreases u, 0
  {
    if u.a.Paren? {
      ShapeDecides(u.a.e);
      if u.a.e.One? {
        ShapeDecidesUnary(u.a.e.u);
      }
    }
  }

  // ----- It is enough -----

  lemma {:induction false} RightMeans(e: Expr)
    requires Right(e)
    ensures Actual(e) == Eval(e)
    decreases e, 1
  {
    match e
    case One(u) => RightMeansUnary(u);
    case Bin(l, _, r) =>
      RightMeans(l);
      RightMeansUnary(r);
  }

  lemma ThroughParentheses(k: nat, e: Expr)
    ensures var u := Nots(k, Paren(e));
            && ActualUnary(u) == (if k > 0 then !Actual(e) else Actual(e))
            && EvalUnary(u) == (if k % 2 == 1 then !Eval(e) else Eval(e))
            && ShapeUnary(u) == Nots(k, Paren(Shape(e)))
    ensures e.One? ==> Actual(e) == ActualUnary(e.u) && Eval(e) == EvalUnary(e.u) && Shape(e) == One(ShapeUnary(e.u))
  {
  }

  lemma {:induction false} RightMeansUnary(u: Unary)
    requires RightInside(u)
    ensures ActualUnary(u) == (EvalUnary(u) != Twisted(u))
    decreases u, 0
  {
    if u.a.Paren? {
      ThroughParentheses(u.k, u.a.e);
      if u.a.e.One? {
        RightMeansUnary(u.a.e.u);
      } else {
        RightMeans(u.a.e);
      }
    }
  }

  // ----- It is needed: outcomes for which the value is wrong -----

  ghost predicate CanBe(e: Expr, v: bool) { exists w :: Shape(w) == Shape(e) && Actual(w) == v }

  ghost predicate UnaryCanBe(u: Unary, v: bool) { exists w :: ShapeUnary(w) == ShapeUnary(u) && ActualUnary(w) == v }

  /** Outcomes for which a binary expression comes to its value all the same. */
  lemma {:induction false} Agreeing(l: Expr, op: Op, r: Unary) returns (w: Expr)
    ensures Shape(w) == Shape(Bin(l, op, r)) && Actual(w) == Eval(w)
  {
    var z := !op.AND?;
    if UnaryStrikes(r) {
      var right := FillUnary(r, false);
      FilledUnary(r, false);
      SameStrike(r, right);
      var v := if op.AND? then false else ActualUnary(right);
      Filled(l, v);
      w := Bin(Fill(l, v), op, right);
    } else if CanBe(l, z) {
      var left :| Shape(left) == Shape(l) && Actual(left) == z;
      FilledUnary(r, z);
      SameStrike(r, FillUnary(r, z));
      w := Bin(left, op, FillUnary(r, z));
    } else if UnaryCanBe(r, z) {
      var right :| ShapeUnary(right) == ShapeUnary(r) && ActualUnary(right) == z;
      Filled(l, z);
      SameStrike(r, right);
      w := Bin(Fill(l, z), op, right);
    } else {
      Filled(l, !z);
      FilledUnary(r, !z);
      SameStrike(r, FillUnary(r, !z));
      w := Bin(Fill(l, !z), op, FillUnary(r, !z));
    }
  }

  lemma {:induction false} SameStrike(u: Unary, w: Unary)
    requires ShapeUnary(w) == ShapeUnary(u)
    ensures UnaryStrikes(w) == UnaryStrikes(u) && Twisted(w) == Twisted(u) && w.k == u.k
  {
    ShapeDecidesUnary(u);
    ShapeDecidesUnary(w);
  }

  lemma {:induction false} AgreeingUnary(u: Unary) returns (w: Unary)
    ensures ShapeUnary(w) == ShapeUnary(u) && ActualUnary(w) == (EvalUnary(w) != Twisted(w))
    decreases u
  {
    match u.a
    case Comparison(_) => w := u;
    case Paren(One(inner)) =>
      var v := AgreeingUnary(inner);
      ThroughParentheses(u.k, One(inner));
      ThroughParentheses(u.k, One(v));
      w := Nots(u.k, Paren(One(v)));
    case Paren(Bin(l, op, r)) =>
      var e := Agreeing(l, op, r);
      ThroughParentheses(u.k, Bin(l, op, r));
      ThroughParentheses(u.k, e);
      w := Nots(u.k, Paren(e));
  }

  lemma {:induction false} DifferingInside(u: Unary) returns (w: Unary)
    requires !RightInside(u)
    ensures ShapeUnary(w) == ShapeUnary(u) && ActualUnary(w) != (EvalUnary(w) != Twisted(w))
    decreases u, 0
  {
    match u.a
    case Paren(One(inner)) =>
      var v := DifferingInside(inner);
      ThroughParentheses(u.k, One(inner));
      ThroughParentheses(u.k, One(v));
      w := Nots(u.k, Paren(One(v)));
    case Paren(Bin(_, _, _)) =>
      var e := Differing(u.a.e);
      ThroughParentheses(u.k, u.a.e);
      ThroughParentheses(u.k, e);
      w := Nots(u.k, Paren(e));
  }

  lemma {:induction false} DifferingUnary(u: Unary) returns (w: Unary)
    requires Twisted(u) || !RightInside(u)
    ensures ShapeUnary(w) == ShapeUnary(u) && ActualUnary(w) != EvalUnary(w)
    decreases u, 1
  {
    if Twisted(u) {
      w := AgreeingUnary(u);
    } else {
      w := DifferingInside(u);
    }
    SameStrike(u, w);
  }

  /** An expression that does not meet the condition comes to the wrong value for some
      outcomes of its comparisons. */
  lemma {:induction false} Differing(e: Expr) returns (w: Expr)
    requires !Right(e)
    ensures Shape(w) == Shape(e) && Actual(w) != Eval(w)
    decreases e, 2
  {
    match e
    case One(u) =>
      var v := DifferingUnary(u);
      w := One(v);
    case Bin(l, op, r) =>
      if UnaryStrikes(r) {
        w := DifferingStruck(l, op, r);
      } else if !Right(l) {
        var left := Differing(l);
        w := DifferingLeft(l, op, r, left);
      } else {
        var right := DifferingUnary(r);
        var neutral := op.AND?;
        Filled(l, neutral);
        SameStrike(r, right);
        ShapeDecides(l);
        ShapeDecides(Fill(l, neutral));
        RightMeans(Fill(l, neutral));
        w := Bin(Fill(l, neutral), op, right);
      }
  }

  lemma {:induction false} DifferingStruck(l: Expr, op: Op, r: Unary) returns (w: Expr)
    requires UnaryStrikes(r)
    ensures Shape(w) == Shape(Bin(l, op, r)) && Actual(w) != Eval(w)
  {
    var right := FillUnary(r, op.AND?);
    FilledUnary(r, op.AND?);
    SameStrike(r, right);
    var v := op.AND? || !ActualUnary(right);
    Filled(l, v);
    w := Bin(Fill(l, v), op, right);
  }

  /** The left operand differs; the right one lets the difference through, or it hides
      every value of the left one where it should not. */
  lemma {:induction false} DifferingLeft(l: Expr, op: Op, r: Unary, left: Expr) returns (w: Expr)
    requires !UnaryStrikes(r) && Shape(left) == Shape(l) && Actual(left) != Eval(left)
    ensures Shape(w) == Shape(Bin(l, op, r)) && Actual(w) != Eval(w)
  {
    var z := !op.AND?;
    FilledUnary(r, !z);
    SameStrike(r, FillUnary(r, !z));
    if Actual(left) == z {
      w := Bin(left, op, FillUnary(r, !z));
    } else if UnaryCanBe(r, !z) {
      var right :| ShapeUnary(right) == ShapeUnary(r) && ActualUnary(right) == !z;
      SameStrike(r, right);
      w := Bin(left, op, right);
    } else {
      Filled(l, !z);
      w := Bin(Fill(l, !z), op, FillUnary(r, !z));
    }
  }

  /** The same expression with comparisons that may have come out differently. */
  ghost predicate SameShape(w: Expr, e: Expr) { Shape(w) == Shape(e) }

  /** Whatever the comparisons come to, the evaluator returns the value of the expression. */
  ghost predicate AlwaysMeant(e: Expr) {
    forall w :: SameShape(w, e) ==> Validated(Tokens(w)) == Done([CRS], [Eval(w)])
  }

  lemma {:induction false} ShapeOfOutcome(e: Expr, w: Expr)
    requires Grammatical(e) && SameShape(w, e)
    ensures Validated(Tokens(w)) == if Strikes(e) then Underflow else Done([CRS], [Actual(w)])
    ensures Right(w) == Right(e)
  {
    ShapeDecides(e);
    ShapeDecides(w);
    EvaluatorComputes(w);
  }

  /** For every expression: the evaluator returns its value, whatever the comparisons come
      to, if and only if it strikes nothing before it, no right operand strikes its left
      one, and no chain of NOTs is twisted. */
  lemma {:induction false} RightExactly(e: Expr)
    requires Grammatical(e)
    ensures AlwaysMeant(e) <==> !Strikes(e) && Right(e)
  {
    hide Shape, Eval, Actual, Validated, Tokens, Right;
    if Strikes(e) {
      ShapeOfOutcome(e, e);
      assert SameShape(e, e) && !AlwaysMeant(e);
    } else if Right(e) {
      forall w | SameShape(w, e) ensures Validated(Tokens(w)) == Done([CRS], [Eval(w)]) {
        ShapeOfOutcome(e, w);
        RightMeans(w);
      }
    } else {
      var w := Differing(e);
      assert SameShape(w, e);
      ShapeOfOutcome(e, w);
      assert [Actual(w)][0] != [Eval(w)][0];
    }
  }

  // ----- Inputs -----

  function Plain(b: bool): Unary { Nots(0, Comparison(b)) }

  /** NOT NOT b pops an empty stack; a AND NOT NOT b comes to false; NOT (NOT NOT NOT b)
      and NOT (NOT NOT (NOT NOT b)) come to their values. */
  lemma {:induction false} TwoNotsInFourPlaces(a: bool, b: bool)
    ensures Validated([Sym(NOT), Sym(NOT), Cmp(b)]) == Underflow
    ensures Validated([Cmp(a), Sym(AND), Sym(NOT), Sym(NOT), Cmp(b)]) == Done([CRS], [false])
    ensures Validated([Sym(NOT), Sym(LPA), Sym(NOT), Sym(NOT), Sym(NOT), Cmp(b), Sym(RPA)]) == Done([CRS], [b])
    ensures Validated([Sym(NOT), Sym(LPA), Sym(NOT), Sym(NOT),
                       Sym(LPA), Sym(NOT), Sym(NOT), Cmp(b), Sym(RPA), Sym(RPA)]) == Done([CRS], [!b])
  {
    var two, three := Nots(2, Comparison(b)), Nots(3, Comparison(b));
    NotsWritten(b);
    EvaluatorComputes(One(two));
    EvaluatorComputes(Bin(One(Plain(a)), AND, two));
    EvaluatorComputes(One(Nots(1, Paren(One(three)))));
    var inner := Nots(2, Paren(One(two)));
    ThroughParentheses(2, One(two));
    ThroughParentheses(1, One(inner));
    assert GrammaticalAtom(Paren(One(two))) && Grammatical(One(inner));
    EvaluatorComputes(One(Nots(1, Paren(One(inner)))));
    assert UnaryTokens(Plain(a)) == [Cmp(a)] && UnaryTokens(two) == [Sym(NOT), Sym(NOT), Cmp(b)];
    assert Tokens(Bin(One(Plain(a)), AND, two)) == [Cmp(a), Sym(AND), Sym(NOT), Sym(NOT), Cmp(b)];
  }

  lemma NotsWritten(b: bool)
    ensures var two, three := Nots(2, Comparison(b)), Nots(3, Comparison(b));
            var inner := Nots(2, Paren(One(two)));
            && NotTokens(0) == []
            && Tokens(One(two)) == [Sym(NOT), Sym(NOT), Cmp(b)]
            && Tokens(One(Nots(1, Paren(One(three))))) ==
                 [Sym(NOT), Sym(LPA), Sym(NOT), Sym(NOT), Sym(NOT), Cmp(b), Sym(RPA)]
            && Tokens(One(Nots(1, Paren(One(inner))))) ==
                 [Sym(NOT), Sym(LPA), Sym(NOT), Sym(NOT), Sym(LPA), Sym(NOT), Sym(NOT), Cmp(b), Sym(RPA), Sym(RPA)]
  {
    var two, three := Nots(2, Comparison(b)), Nots(3, Comparison(b));
    var inner := Nots(2, Paren(One(two)));
    assert NotTokens(1) == [Sym(NOT)] && NotTokens(2) == [Sym(NOT)] + NotTokens(1);
    assert NotTokens(3) == [Sym(NOT)] + NotTokens(2);
    assert Tokens(One(three)) == UnaryTokens(three) == [Sym(NOT), Sym(NOT), Sym(NOT), Cmp(b)];
    assert Tokens(One(two)) == UnaryTokens(two) == [Sym(NOT), Sym(NOT), Cmp(b)];
    assert AtomTokens(Paren(One(two))) == [Sym(LPA), Sym(NOT), Sym(NOT), Cmp(b), Sym(RPA)];
    assert Tokens(One(inner)) == UnaryTokens(inner) == NotTokens(2) + AtomTokens(Paren(One(two)));
    assert AtomTokens(Paren(One(inner))) == [Sym(LPA)] + Tokens(One(inner)) + [Sym(RPA)];
    assert AtomTokens(Paren(One(three))) == [Sym(LPA)] + Tokens(One(three)) + [Sym(RPA)];
    assert Tokens(One(Nots(1, Paren(One(inner))))) == NotTokens(1) + AtomTokens(Paren(One(inner)));
    assert Tokens(One(Nots(1, Paren(One(three))))) == NotTokens(1) + AtomTokens(Paren(One(three)));
  }
}
