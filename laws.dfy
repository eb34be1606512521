/**
  What the evaluator and the reader promise, stated against independent
  reference definitions (sums and products for the fold, the nodes of the
  input tree for errors) and proved from the definitions in `Evaluator`
  and `Reader`.
*/
module Laws {
  import opened Values
  import opened Reader
  import opened Printer
  import opened Evaluator

  // ---------------------------------------------------------------------
  // builtin_op against sums and products
  // ---------------------------------------------------------------------

  function Sum(ys: seq<int>): int {
    if ys == [] then 0 else ys[0] + Sum(ys[1..])
  }

  function Product(ys: seq<int>): int {
    if ys == [] then 1 else ys[0] * Product(ys[1..])
  }

  lemma {:induction false} SumSnoc(ys: seq<int>, y: int)
    ensures Sum(ys + [y]) == Sum(ys) + y
  {
    if ys != [] {
      assert (ys + [y])[1..] == ys[1..] + [y];
      SumSnoc(ys[1..], y);
    }
  }

  lemma {:induction false} ProductSnoc(ys: seq<int>, y: int)
    ensures Product(ys + [y]) == Product(ys) * y
  {
    if ys != [] {
      assert (ys + [y])[1..] == ys[1..] + [y];
      ProductSnoc(ys[1..], y);
      assert ys[0] * (Product(ys[1..]) * y) == (ys[0] * Product(ys[1..])) * y;
    }
  }

  /** Folding `+` adds every operand to the accumulator. */
  lemma {:induction false} FoldPlus(x: int, ys: seq<int>)
    ensures FoldLeft("+", x, ys) == Num(x + Sum(ys))
    decreases |ys|
  {
    if ys != [] {
      var init := ys[..|ys| - 1];
      assert ys == init + [ys[|ys| - 1]];
      FoldPlus(x, init);
      SumSnoc(init, ys[|ys| - 1]);
    }
  }

  /** Folding `-` subtracts every operand from the accumulator. */
  lemma {:induction false} FoldMinus(x: int, ys: seq<int>)
    ensures FoldLeft("-", x, ys) == Num(x - Sum(ys))
    decreases |ys|
  {
    if ys != [] {
      var init := ys[..|ys| - 1];
      assert ys == init + [ys[|ys| - 1]];
      FoldMinus(x, init);
      SumSnoc(init, ys[|ys| - 1]);
    }
  }

  /** Folding `*` multiplies the accumulator by every operand. */
  lemma {:induction false} FoldTimes(x: int, ys: seq<int>)
    ensures FoldLeft("*", x, ys) == Num(x * Product(ys))
    decreases |ys|
  {
    if ys != [] {
      var init := ys[..|ys| - 1];
      var y := ys[|ys| - 1];
      assert ys == init + [y];
      FoldTimes(x, init);
      ProductSnoc(init, y);
      assert (x * Product(init)) * y == x * (Product(init) * y);
    }
  }

  /** A symbol other than the four operators leaves the accumulator as it
      is, whatever the operands. */
  lemma {:induction false} FoldOther(op: string, x: int, ys: seq<int>)
    requires op != "+" && op != "-" && op != "*" && op != "/"
    ensures FoldLeft(op, x, ys) == Num(x)
    decreases |ys|
  {
    if ys != [] {
      FoldOther(op, x, ys[..|ys| - 1]);
    }
  }

  lemma NumsOfTail(args: seq<LVal>)
    requires AllNums(args) && args != []
    ensures NumsOf(args[1..]) == NumsOf(args)[1..]
    ensures NumsOf(args)[0] == args[0].num
  {
  }

  /** `(+ a b ...)` is the sum of all its operands. */
  lemma BuiltinPlus(args: seq<LVal>)
    requires |args| >= 1 && AllNums(args)
    ensures BuiltinOp(args, "+") == Num(Sum(NumsOf(args)))
  {
    NumsOfTail(args);
    FoldPlus(args[0].num, NumsOf(args[1..]));
  }

  /** `(* a b ...)` is the product of all its operands. */
  lemma BuiltinTimes(args: seq<LVal>)
    requires |args| >= 1 && AllNums(args)
    ensures BuiltinOp(args, "*") == Num(Product(NumsOf(args)))
  {
    NumsOfTail(args);
    FoldTimes(args[0].num, NumsOf(args[1..]));
  }

  /** `(- a)` is the negation of `a`; `(- a b ...)` subtracts the rest from
      `a`. */
  lemma BuiltinMinus(args: seq<LVal>)
    requires |args| >= 1 && AllNums(args)
    ensures |args| == 1 ==> BuiltinOp(args, "-") == Num(-args[0].num)
    ensures |args| >= 2 ==> BuiltinOp(args, "-") == Num(args[0].num - Sum(NumsOf(args[1..])))
  {
    if |args| >= 2 {
      FoldMinus(args[0].num, NumsOf(args[1..]));
    }
  }

  /** `(/ a b ...)` fails with the division error exactly when some divisor
      is zero; otherwise it is a number. */
  lemma BuiltinDivide(args: seq<LVal>)
    requires |args| >= 1 && AllNums(args)
    ensures BuiltinOp(args, "/") == Err(DivisionByZero) <==>
      exists k :: 1 <= k < |args| && args[k].num == 0
    ensures BuiltinOp(args, "/").Num? <==>
      forall k :: 1 <= k < |args| ==> args[k].num != 0
  {
    var ys := NumsOf(args[1..]);
    if exists k :: 1 <= k < |args| && args[k].num == 0 {
      var k :| 1 <= k < |args| && args[k].num == 0;
      assert ys[k - 1] == 0;
    }
    if 0 in ys {
      var j :| 0 <= j < |ys| && ys[j] == 0;
      assert args[j + 1].num == 0;
    }
  }

  /** With any other symbol the result is the first operand. */
  lemma BuiltinOther(args: seq<LVal>, op: string)
    requires |args| >= 1 && AllNums(args)
    requires op != "+" && op != "-" && op != "*" && op != "/"
    ensures BuiltinOp(args, op) == args[0]
  {
    FoldOther(op, args[0].num, NumsOf(args[1..]));
  }

  // ---------------------------------------------------------------------
  // lval_eval
  // ---------------------------------------------------------------------

  /** Numbers, errors and symbols evaluate to themselves. */
  lemma EvalLeaf(v: LVal)
    requires !v.Sexpr?
    ensures Eval(v) == v
  {
  }

  /** The result of evaluation is a number, an error, a symbol or the empty
      expression: never an expression with children. */
  lemma {:induction false} EvalNormal(v: LVal)
    ensures Eval(v).Sexpr? ==> Eval(v) == Sexpr([])
    decreases v
  {
    if v.Sexpr? {
      var cs := v.cells;
      var es := EvalAll(v, cs);
      if FirstError(es).NoError? && |es| == 1 {
        assert cs[0] in cs;
        EvalNormal(cs[0]);
      }
    }
  }

  /** Evaluating a result again changes nothing. */
  lemma EvalIdempotent(v: LVal)
    ensures Eval(Eval(v)) == Eval(v)
  {
    EvalNormal(v);
    if Eval(v).Sexpr? {
      assert EvalAll(Sexpr([]), []) == [];
    }
  }

  /** `()` evaluates to `()`, and `(x)` to the value of `x`. */
  lemma EvalShort(x: LVal)
    ensures Eval(Sexpr([])) == Sexpr([])
    ensures Eval(Sexpr([x])) == Eval(x)
  {
    assert EvalAll(Sexpr([]), []) == [];
    assert EvalAll(Sexpr([x]), [x]) == [Eval(x)];
  }

  /** If a child evaluates to an error and no child before it does, that
      error is the value of the whole expression. */
  lemma EvalFirstErrorWins(cs: seq<LVal>, k: nat)
    requires k < |cs| && Eval(cs[k]).Err?
    requires forall j :: 0 <= j < k ==> !Eval(cs[j]).Err?
    ensures Eval(Sexpr(cs)) == Eval(cs[k])
  {
    var es := EvalAll(Sexpr(cs), cs);
    assert es[k].Err?;
    assert FirstError(es) == At(k);
  }

  /** Without error children, an expression of two or more elements whose
      head does not evaluate to a symbol is malformed. */
  lemma EvalNeedsSymbol(cs: seq<LVal>)
    requires |cs| >= 2
    requires forall j :: 0 <= j < |cs| ==> !Eval(cs[j]).Err?
    requires !Eval(cs[0]).Sym?
    ensures Eval(Sexpr(cs)) == Err(NoLeadingSymbol)
  {
    var es := EvalAll(Sexpr(cs), cs);
    assert FirstError(es).NoError?;
  }

  /** Without error children, an expression whose head evaluates to the
      symbol `op` applies `op` to the values of the other children. */
  lemma EvalDispatch(cs: seq<LVal>, op: string)
    requires |cs| >= 2
    requires forall j :: 0 <= j < |cs| ==> !Eval(cs[j]).Err?
    requires Eval(cs[0]) == Sym(op)
    ensures Eval(Sexpr(cs)) == BuiltinOp(EvalAll(Sexpr(cs), cs)[1..], op)
  {
    var es := EvalAll(Sexpr(cs), cs);
    assert FirstError(es).NoError?;
  }

  /** The error leaves of a tree: the messages of the `Err` nodes in it. */
  predicate HasError(v: LVal, m: string)
    decreases v
  {
    match v
    case Err(e) => e == m
    case Sexpr(cs) => exists i :: 0 <= i < |cs| && HasError(cs[i], m)
    case _ => false
  }

  /** Every error evaluation produces is either an error already in the
      tree (the reader's "invalid number") or one of the evaluator's three
      messages. */
  lemma {:induction false} EvalErrorOrigin(v: LVal)
    ensures Eval(v).Err? ==>
      HasError(v, Eval(v).err) ||
      Eval(v).err in {NonNumber, DivisionByZero, NoLeadingSymbol}
    decreases v
  {
    if v.Sexpr? {
      var cs := v.cells;
      var es := EvalAll(v, cs);
      match FirstError(es)
      case At(k) =>
        assert cs[k] in cs;
        EvalErrorOrigin(cs[k]);
      case NoError =>
        if |es| == 1 {
          assert cs[0] in cs;
          EvalErrorOrigin(cs[0]);
        }
    }
  }

  // ---------------------------------------------------------------------
  // lval_read
  // ---------------------------------------------------------------------

  /** A node tagged as a number reads as the converted literal; for the
      canonical text of an in-range number that is the number itself, which
      then evaluates to itself. */
  lemma ReadEvalNumber(tag: string, n: int, children: seq<Node>)
    requires Contains(tag, "number") && InLong(n)
    ensures Readable(Node(tag, ShowInt(n), children))
    ensures Read(Node(tag, ShowInt(n), children)) == Num(n)
    ensures Eval(Read(Node(tag, ShowInt(n), children))) == Num(n)
  {
    ReadNumShowInt(n);
  }

  /** A number node holding any literal the number token matches (the
      digits `ds`, or a minus sign and `ds`; leading zeros and `-0`
      included) reads as the signed value of the digits when it fits in a
      `long`, and as the "invalid number" error otherwise; either way it
      evaluates to itself. */
  lemma ReadEvalLiteral(tag: string, ds: string, children: seq<Node>)
    requires Contains(tag, "number")
    requires |ds| >= 1 && forall k :: 0 <= k < |ds| ==> IsDigit(ds[k])
    ensures Readable(Node(tag, ds, children)) && Readable(Node(tag, "-" + ds, children))
    ensures Read(Node(tag, ds, children)) ==
      if InLong(DigitsValue(ds)) then Num(DigitsValue(ds)) else Err(InvalidNumber)
    ensures Read(Node(tag, "-" + ds, children)) ==
      if InLong(-(DigitsValue(ds) as int)) then Num(-(DigitsValue(ds) as int)) else Err(InvalidNumber)
    ensures Eval(Read(Node(tag, ds, children))) == Read(Node(tag, ds, children))
    ensures Eval(Read(Node(tag, "-" + ds, children))) == Read(Node(tag, "-" + ds, children))
  {
    StrTolLiteral(ds);
  }

  /** A root or s-expression node reads as an expression of its kept
      children, translated in order; printing it gives `(`, their texts
      joined by single spaces, and `)`. */
  lemma ReadSexpr(t: Node)
    requires Readable(t)
    requires !Contains(t.tag, "number") && !Contains(t.tag, "symbol")
    ensures Read(t).Sexpr?
    ensures |Read(t).cells| == |Kept(t.children)|
    ensures forall i :: 0 <= i < |Kept(t.children)| ==>
      Readable(Kept(t.children)[i]) && Read(t).cells[i] == Read(Kept(t.children)[i])
    ensures Print(Read(t)) == "(" + Join(PrintAll(Read(t).cells)) + ")"
  {
    PrintSexpr(Read(t).cells);
  }
}
