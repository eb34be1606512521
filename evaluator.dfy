/**
  The evaluator of lval.h:193-281: `builtin_op`, `lval_eval_sexpr` and
  `lval_eval`. The functions state what evaluation computes; the methods
  do it the way the source does, in place on an expression's `cell` array,
  and are proved to compute those functions.
*/
module Evaluator {
  import opened Values

  // ---------------------------------------------------------------------
  // Arithmetic on the operands
  // ---------------------------------------------------------------------

  function Abs(n: int): nat {
    if n < 0 then -n else n
  }

  /** C's `/` on `long` (ISO C99 section 6.5.5): the quotient of the
      magnitudes, negated when the signs differ. */
  function TruncDiv(a: int, b: int): int
    requires b != 0
  {
    var m := Abs(a) / Abs(b);
    if (a < 0) != (b < 0) then -m else m
  }

  /** The quotient is the algebraic quotient with any fractional part
      discarded: the remainder `a - q * b` (C's `a % b`) is smaller than the
      divisor in magnitude and is zero or has the dividend's sign. */
  lemma TruncDivTruncates(a: int, b: int)
    requires b != 0
    ensures var r := a - TruncDiv(a, b) * b;
      Abs(r) < Abs(b) && (r == 0 || (r < 0 <==> a < 0))
  {
    var m := Abs(a) / Abs(b);
    assert Abs(a) - m * Abs(b) < Abs(b);
    assert 0 <= Abs(a) - m * Abs(b);
    if a < 0 && b < 0 {
      assert TruncDiv(a, b) * b == -(m * Abs(b));
    } else if a < 0 {
      assert TruncDiv(a, b) * b == -(m * Abs(b));
    } else if b < 0 {
      assert TruncDiv(a, b) * b == m * Abs(b);
    } else {
      assert TruncDiv(a, b) * b == m * Abs(b);
    }
  }

  /** One step of the fold in `builtin_op` on an accumulator that is still a
      number: the four operators, and no change for any other symbol. */
  function Apply(op: string, x: int, y: int): int
    requires op == "/" ==> y != 0
  {
    if op == "+" then x + y
    else if op == "-" then x - y
    else if op == "*" then x * y
    else if op == "/" then TruncDiv(x, y)
    else x
  }

  /** One loop iteration: an error accumulator stays as it is (the loop has
      stopped), a zero divisor under `/` gives the division error. */
  function Step(op: string, acc: LVal, y: int): LVal {
    if !acc.Num? then acc
    else if op == "/" && y == 0 then Err(DivisionByZero)
    else Num(Apply(op, acc.num, y))
  }

  /** The accumulator after the operands `ys` have been consumed, starting
      from `x`. */
  function FoldLeft(op: string, x: int, ys: seq<int>): (r: LVal)
    ensures r.Num? || r == Err(DivisionByZero)
    ensures r.Err? <==> op == "/" && 0 in ys
    decreases |ys|
  {
    if ys == [] then Num(x)
    else
      var init := ys[..|ys| - 1];
      assert ys == init + [ys[|ys| - 1]];
      Step(op, FoldLeft(op, x, init), ys[|ys| - 1])
  }

  predicate AllNums(args: seq<LVal>) {
    forall i :: 0 <= i < |args| ==> args[i].Num?
  }

  function NumsOf(args: seq<LVal>): (ns: seq<int>)
    requires AllNums(args)
    ensures |ns| == |args|
    ensures forall i :: 0 <= i < |args| ==> ns[i] == args[i].num
  {
    seq(|args|, i requires 0 <= i < |args| => args[i].num)
  }

  /** `builtin_op`: every operand must be a number; `-` with a single
      operand negates it; otherwise the operands are folded from the left
      under `op`, stopping at a zero divisor. */
  function BuiltinOp(args: seq<LVal>, op: string): (r: LVal)
    requires |args| >= 1
    ensures r == Err(NonNumber) <==> !AllNums(args)
    ensures r.Num? || r == Err(NonNumber) || r == Err(DivisionByZero)
    ensures AllNums(args) && |args| == 1 ==>
      r == (if op == "-" then Num(-args[0].num) else args[0])
  {
    if !AllNums(args) then Err(NonNumber)
    else if op == "-" && |args| == 1 then Num(-args[0].num)
    else FoldLeft(op, args[0].num, NumsOf(args[1..]))
  }

  // ---------------------------------------------------------------------
  // Evaluation
  // ---------------------------------------------------------------------

  /** Where the first error child is, if there is one. */
  datatype ErrorAt = NoError | At(index: nat)

  /** The index of the first child that is an error, if any. */
  function FirstError(es: seq<LVal>): (k: ErrorAt)
    ensures k.At? ==> k.index < |es| && es[k.index].Err?
    ensures k.At? ==> forall j :: 0 <= j < k.index ==> !es[j].Err?
    ensures k.NoError? ==> forall j :: 0 <= j < |es| ==> !es[j].Err?
  {
    if es == [] then NoError
    else if es[0].Err? then At(0)
    else match FirstError(es[1..])
      case At(j) => At(j + 1)
      case NoError => NoError
  }

  /** `lval_eval_sexpr` once the children are evaluated: the first error
      child wins; no children gives the empty expression; one child is the
      result; otherwise the head must be a symbol naming the operator. */
  function EvalSexpr(es: seq<LVal>): LVal {
    match FirstError(es)
    case At(k) => es[k]
    case NoError =>
      if |es| == 0 then Sexpr([])
      else if |es| == 1 then es[0]
      else if !es[0].Sym? then Err(NoLeadingSymbol)
      else BuiltinOp(es[1..], es[0].sym)
  }

  /** `lval_eval`: an expression is reduced after all its children are,
      every other value is its own result. */
  function Eval(v: LVal): LVal
    decreases v, 1
  {
    match v
    case Sexpr(cs) => EvalSexpr(EvalAll(v, cs))
    case _ => v
  }

  /** The children after the first loop of `lval_eval_sexpr`. */
  function EvalAll(ghost parent: LVal, cs: seq<LVal>): seq<LVal>
    requires forall i :: 0 <= i < |cs| ==> cs[i] < parent
    decreases parent, 0
  {
    seq(|cs|, i requires 0 <= i < |cs| => Eval(cs[i]))
  }

  // ---------------------------------------------------------------------
  // The source's in-place algorithms
  // ---------------------------------------------------------------------

  /** `lval_eval`. */
  method EvalValue(v: LVal) returns (r: LVal)
    ensures r == Eval(v)
    decreases v, 2
  {
    if v.Sexpr? {
      var node := new Cells.Holding(v.cells);
      r := EvalCells(node, v);
    } else {
      r := v;
    }
  }

  /** `lval_eval_sexpr` on the node `v`, whose children are those of
      `orig`: the children are replaced by their values in place, then the
      node is consumed. */
  method EvalCells(v: Cells, ghost orig: LVal) returns (r: LVal)
    requires v.Valid() && orig.Sexpr? && v.Items() == orig.cells
    modifies v, v.cell
    ensures r == Eval(orig)
    ensures v.Valid() && v.Items() == []
    decreases orig, 1
  {
    EvalChildren(v, orig);
    ghost var es := v.Items();
    assert Eval(orig) == EvalSexpr(es);

    var k := FindError(v);
    if k < v.count {
      r := v.Take(k);
      return;
    }
    if v.count == 0 {
      r := Sexpr([]);
      return;
    }
    if v.count == 1 {
      r := v.Take(0);
      return;
    }
    var f := v.Pop(0);
    if !f.Sym? {
      v.Delete();
      r := Err(NoLeadingSymbol);
      return;
    }
    assert v.Items() == es[1..];
    r := BuiltinOpCells(v, f.sym);
  }

  /** The first loop of `lval_eval_sexpr`: `v->cell[i] = lval_eval(v->cell[i])`
      for every child, left to right. */
  method EvalChildren(v: Cells, ghost orig: LVal)
    requires v.Valid() && orig.Sexpr? && v.Items() == orig.cells
    modifies v.cell
    ensures v.Valid() && v.count == old(v.count)
    ensures v.Items() == EvalAll(orig, orig.cells)
    decreases orig, 0
  {
    ghost var cs := orig.cells;
    var i := 0;
    while i < v.count
      invariant v.Valid() && v.count == |cs|
      invariant 0 <= i <= v.count
      invariant forall j :: 0 <= j < i ==> v.cell[j] == Eval(cs[j])
      invariant forall j :: i <= j < v.count ==> v.cell[j] == cs[j]
    {
      assert v.cell[i] in cs;
      var e := EvalValue(v.cell[i]);
      v.cell[i] := e;
      i := i + 1;
    }
  }

  /** The error-checking loop of `lval_eval_sexpr`, as intended: the index
      of the first child that is an error, or `count` when there is none. */
  method FindError(v: Cells) returns (k: nat)
    requires v.Valid()
    ensures k <= v.count
    ensures k < v.count <==> FirstError(v.Items()).At?
    ensures k < v.count ==> k == FirstError(v.Items()).index
  {
    k := 0;
    while k < v.count
      invariant k <= v.count
      invariant forall j :: 0 <= j < k ==> !v.cell[j].Err?
    {
      if v.cell[k].Err? {
        return;
      }
      k := k + 1;
    }
  }

  /** The first loop of `builtin_op`: whether every operand is a number. */
  method AllNumbers(a: Cells) returns (ok: bool)
    requires a.Valid()
    ensures ok <==> AllNums(a.Items())
  {
    var i := 0;
    while i < a.count
      invariant 0 <= i <= a.count
      invariant forall j :: 0 <= j < i ==> a.cell[j].Num?
    {
      if !a.cell[i].Num? {
        return false;
      }
      i := i + 1;
    }
    return true;
  }

  /** `builtin_op` on the operand node `a`, which it consumes. */
  method BuiltinOpCells(a: Cells, op: string) returns (x: LVal)
    requires a.Valid() && a.count >= 1
    modifies a, a.cell
    ensures x == BuiltinOp(old(a.Items()), op)
    ensures a.Valid() && a.Items() == []
  {
    var ok := AllNumbers(a);
    if !ok {
      a.Delete();
      return Err(NonNumber);
    }
    ghost var args := a.Items();
    x := a.Pop(0);
    if op == "-" && a.count == 0 {
      x := Num(-x.num);
    } else {
      assert a.Items() == args[1..];
      x := FoldCells(a, x.num, op);
    }
    a.Delete();
  }

  /** The `while (a->count > 0)` loop of `builtin_op`: pop each remaining
      operand and combine it into the accumulator, stopping at a zero
      divisor. */
  method FoldCells(a: Cells, x0: int, op: string) returns (x: LVal)
    requires a.Valid() && AllNums(a.Items())
    modifies a, a.cell
    ensures x == FoldLeft(op, x0, NumsOf(old(a.Items())))
    ensures a.Valid() && a.cell == old(a.cell)
    ensures a.count <= old(a.count)
    ensures a.Items() == old(a.Items())[old(a.count) - a.count..]
    ensures x.Num? ==> a.Items() == []
    ensures x.Err? ==>
              && 1 <= old(a.count) - a.count
              && FoldLeft(op, x0, NumsOf(old(a.Items())[..old(a.count) - a.count - 1])).Num?
              && FoldLeft(op, x0, NumsOf(old(a.Items())[..old(a.count) - a.count])).Err?
  {
    ghost var args := a.Items();
    ghost var done: seq<int> := [];
    x := Num(x0);
    while a.count > 0
      invariant a.Valid() && a.cell == old(a.cell)
      invariant AllNums(a.Items())
      invariant |done| <= |args| && a.Items() == args[|done|..]
      invariant forall j :: 0 <= j < |done| ==> done[j] == args[j].num
      invariant x == FoldLeft(op, x0, done) && x.Num?
      decreases a.count
    {
      ghost var prev := done;
      ghost var y: int;
      x, y := FoldStep(a, x.num, op);
      assert args[|done|..][1..] == args[|done| + 1..];
      FoldSnoc(op, x0, done, y);
      done := done + [y];
      if x.Err? {
        assert done[..|done| - 1] == prev;
        assert NumsOf(args[..|done| - 1]) == prev;
        assert NumsOf(args[..|done|]) == done;
        break;
      }
    }
    assert |args| == old(a.count) && |args| - |done| == a.count;
    FoldFinished(op, x0, args, done);
  }

  /** One iteration of that loop: pop the first remaining operand `y` and
      combine it into the accumulator `x`. */
  method FoldStep(a: Cells, x: int, op: string) returns (r: LVal, ghost y: int)
    requires a.Valid() && a.count > 0 && AllNums(a.Items())
    modifies a, a.cell
    ensures a.Valid() && a.cell == old(a.cell)
    ensures y == old(a.Items())[0].num
    ensures a.Items() == old(a.Items())[1..] && AllNums(a.Items())
    ensures r == Step(op, Num(x), y)
  {
    var operand := a.Pop(0);
    y := operand.num;
    r := Combine(op, x, operand.num);
  }

  /** After the loop: either every operand was consumed, or the fold
      stopped on an error that the remaining operands would not change. */
  lemma FoldFinished(op: string, x0: int, args: seq<LVal>, done: seq<int>)
    requires AllNums(args) && |done| <= |args|
    requires forall j :: 0 <= j < |done| ==> done[j] == args[j].num
    requires |done| == |args| || FoldLeft(op, x0, done).Err?
    ensures FoldLeft(op, x0, done) == FoldLeft(op, x0, NumsOf(args))
  {
    var ns := NumsOf(args);
    assert done + ns[|done|..] == ns;
    if |done| < |args| {
      FoldErrorStays(op, x0, done, ns[|done|..]);
    } else {
      assert done == ns;
    }
  }

  /** The body of that loop: apply the operator named by `op` to the
      accumulator `x` and the operand `y`. */
  method Combine(op: string, x: int, y: int) returns (r: LVal)
    ensures r == Step(op, Num(x), y)
  {
    r := Num(x);
    if op == "+" {
      r := Num(x + y);
    }
    if op == "-" {
      r := Num(x - y);
    }
    if op == "*" {
      r := Num(x * y);
    }
    if op == "/" {
      if y == 0 {
        return Err(DivisionByZero);
      }
      r := Num(TruncDiv(x, y));
    }
  }

  /** Consuming one more operand is one more `Step`. */
  lemma FoldSnoc(op: string, x: int, ys: seq<int>, y: int)
    ensures FoldLeft(op, x, ys + [y]) == Step(op, FoldLeft(op, x, ys), y)
  {
    assert (ys + [y])[..|ys|] == ys;
  }

  // ---------------------------------------------------------------------
  // Properties of the fold
  // ---------------------------------------------------------------------

  /** Once the accumulator is an error, the remaining operands change
      nothing: the loop's `break` is the same as folding on. */
  lemma {:induction false} FoldErrorStays(op: string, x: int, ys: seq<int>, zs: seq<int>)
    requires FoldLeft(op, x, ys).Err?
    ensures FoldLeft(op, x, ys + zs) == FoldLeft(op, x, ys)
    decreases |zs|
  {
    if zs != [] {
      var init := zs[..|zs| - 1];
      FoldErrorStays(op, x, ys, init);
      assert (ys + zs)[..|ys + zs| - 1] == ys + init;
    }
  }
}
