/**
  Worked inputs of the interpreter, each with the value it evaluates to.
*/
module Scenarios {
  import opened Values
  import opened Printer
  import opened Evaluator
  import opened Laws

  /** `(+ 1 (/ 5 0) 3)` reports only the division error. */
  lemma DivisionErrorWins()
    ensures Eval(Sexpr([Sym("+"), Num(1), Sexpr([Sym("/"), Num(5), Num(0)]), Num(3)]))
      == Err(DivisionByZero)
  {
    var ic := [Sym("/"), Num(5), Num(0)];
    var inner := Sexpr(ic);
    var cs := [Sym("+"), Num(1), inner, Num(3)];
    assert Eval(inner) == Err(DivisionByZero) by {
      EvalDispatch(ic, "/");
      assert EvalAll(inner, ic)[1..] == [Num(5), Num(0)];
      BuiltinDivide([Num(5), Num(0)]);
    }
    EvalFirstErrorWins(cs, 2);
  }

  /** `(- 5)` is -5 and `(- 5 3 1)` is 1. */
  lemma Negation()
    ensures Eval(Sexpr([Sym("-"), Num(5)])) == Num(-5)
    ensures Eval(Sexpr([Sym("-"), Num(5), Num(3), Num(1)])) == Num(1)
  {
    var one := [Sym("-"), Num(5)];
    EvalDispatch(one, "-");
    assert EvalAll(Sexpr(one), one)[1..] == [Num(5)];
    BuiltinMinus([Num(5)]);
    var three := [Sym("-"), Num(5), Num(3), Num(1)];
    EvalDispatch(three, "-");
    assert EvalAll(Sexpr(three), three)[1..] == [Num(5), Num(3), Num(1)];
    BuiltinMinus([Num(5), Num(3), Num(1)]);
    assert NumsOf([Num(3), Num(1)]) == [3, 1];
  }

  /** `(+ 1 (+))`: the inner `(+)` has one child and evaluates to the
      symbol `+`, which the outer `+` refuses as an operand. */
  lemma SymbolOperand()
    ensures Eval(Sexpr([Sym("+")])) == Sym("+")
    ensures Eval(Sexpr([Sym("+"), Num(1), Sexpr([Sym("+")])])) == Err(NonNumber)
  {
    EvalShort(Sym("+"));
    var cs := [Sym("+"), Num(1), Sexpr([Sym("+")])];
    EvalDispatch(cs, "+");
    assert EvalAll(Sexpr(cs), cs)[1..] == [Num(1), Sym("+")];
  }

  /** `(1 2 3)` does not start with a symbol. */
  lemma NumberHead()
    ensures Eval(Sexpr([Num(1), Num(2), Num(3)])) == Err(NoLeadingSymbol)
  {
    EvalNeedsSymbol([Num(1), Num(2), Num(3)]);
  }

  /** `(* 2 (+ 1 2))` is 6: the inner expression is reduced first. */
  lemma Nested()
    ensures Eval(Sexpr([Sym("*"), Num(2), Sexpr([Sym("+"), Num(1), Num(2)])])) == Num(6)
  {
    var inner := [Sym("+"), Num(1), Num(2)];
    EvalDispatch(inner, "+");
    assert EvalAll(Sexpr(inner), inner)[1..] == [Num(1), Num(2)];
    BuiltinPlus([Num(1), Num(2)]);
    assert NumsOf([Num(1), Num(2)]) == [1, 2];
    var cs := [Sym("*"), Num(2), Sexpr(inner)];
    EvalDispatch(cs, "*");
    assert EvalAll(Sexpr(cs), cs)[1..] == [Num(2), Num(3)];
    BuiltinTimes([Num(2), Num(3)]);
    assert NumsOf([Num(2), Num(3)]) == [2, 3];
  }

  /** Division truncates toward zero: `(/ -7 2)` is -3, not -4. */
  lemma TruncatingDivision()
    ensures Eval(Sexpr([Sym("/"), Num(-7), Num(2)])) == Num(-3)
  {
    var cs := [Sym("/"), Num(-7), Num(2)];
    EvalDispatch(cs, "/");
    assert EvalAll(Sexpr(cs), cs)[1..] == [Num(-7), Num(2)];
    assert NumsOf([Num(2)]) == [2];
    assert FoldLeft("/", -7, [2]) == Step("/", Num(-7), 2);
  }

  /** `(+ 1 -2)` prints as it is written. */
  lemma PrintingExpression()
    ensures Print(Sexpr([Sym("+"), Num(1), Num(-2)])) == "(+ 1 -2)"
  {
    var cs := [Sym("+"), Num(1), Num(-2)];
    PrintSexpr(cs);
    assert ShowNat(1) == "1";
    assert ShowNat(2) == "2";
    assert ShowInt(-2) == "-2";
    var ws := PrintAll(cs);
    assert ws == ["+", "1", "-2"];
    assert Join(ws[2..]) == "-2";
    assert Join(ws[1..]) == "1 -2";
  }

  /** An error prints as its prefix, its message and a newline. */
  lemma PrintingError(m: string)
    ensures Println(Err(m)) == "Error: " + m + "\n"
  {
  }
}
