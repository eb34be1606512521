# mylispy: the `lval` interpreter core in Dafny

This project models `lval.h` of mylispy, a small interpreter for
s-expression arithmetic such as `(+ 1 (* 2 3))`. It covers four parts of
that file.

- **Values.**
  - An `lval` is a number, an error message, a symbol, or an s-expression
    that owns its children. It is modelled as the datatype `Values.LVal`.
  - The recursive destructor `lval_del` is modelled as `Values.Released`,
    the sequence of nodes it frees, in freeing order.
  - The `cell`/`count` child array of an s-expression is the class
    `Values.Cells`, a Dafny `array<LVal>` plus `count`. Its methods do the
    in-place list surgery of `lval_add`, `lval_pop` and `lval_take`.
- **Reader** (module `Reader`).
  - `lval_read_num` is modelled over a model of `strtol(s, NULL, 10)` (ISO
    C99 section 7.20.1.4) and its `ERANGE` check.
  - `lval_read` translates a parse-tree node into a value tree. It is
    defined as a function (`Read`) and also written as the source runs it
    (`ReadValue`): it starts from an empty expression and appends each kept
    child with `lval_add`.
- **Printer** (module `Printer`). `lval_print`, `lval_expr_print` and
  `lval_println` are functions from a value to the text they write.
- **Evaluator** (module `Evaluator`).
  - `builtin_op`, `lval_eval_sexpr` and `lval_eval` are specification
    functions: `BuiltinOp`, `EvalSexpr` and `Eval`.
  - They are also in-place methods over `Cells`: `BuiltinOpCells`,
    `EvalCells` and `EvalValue`. Each method is proved to compute its
    specification function.

Module `Laws` proves what the evaluator and reader promise against
independent reference definitions: sums and products for the fold, and the
error leaves of the input tree. Module `Scenarios` works through concrete
inputs.

Integers are unbounded. A `long` is taken to be 64 bits (LP64) where its
range matters, which is the `ERANGE` test of `strtol`. C's `/` truncates
toward zero (ISO C99 section 6.5.5), so it is defined explicitly as
`Evaluator.TruncDiv`.

Where this model departs from the code as written:

- **The error-selection loop (lval.h:246-251) is modelled as intended.**
  - As written, the loop calls `lval_take(v, i)` and discards its result,
    which frees `v`. It then keeps reading `v->count` and goes on to use
    the freed `v`, which is undefined behaviour.
  - The model returns the first error child and discards the rest
    (`Evaluator.FirstError`, `Evaluator.FindError` and the `Take` in
    `Evaluator.EvalCells`).

One behaviour of the code that is easy to misread: an expression that has
exactly one child after evaluation evaluates to that child (lval.h:258-259).
So `(+)` evaluates to the symbol `+`, not to the empty expression, and in
`(+ 1 (+))` that symbol is then refused as an operand
(`Scenarios.SymbolOperand`).

## Definitions

These functions are the model of the source's behaviour. Each is a
definition that follows the cited code branch for branch, so it carries no
contract of its own. The members in the last column state what it means.

| definition | source | described by |
|---|---|---|
| Reader.Contains | lval.h:103-112 | `strstr(hay, needle) != NULL`, by definition: some suffix of `hay` starts with `needle`; `Laws.ReadSexpr`, `Laws.ReadEvalLiteral` |
| Reader.IsSpace | lval.h:89 | The white space `isspace` accepts in the "C" locale, by definition; `Reader.SkipSpaces` |
| Reader.StrTol | lval.h:89 | `Printer.StrTolShowInt`, `Printer.StrTolLiteral` |
| Reader.ReadNum | lval.h:86-91 | `Printer.ReadNumShowInt`, `Laws.ReadEvalNumber`, `Laws.ReadEvalLiteral` |
| Reader.Skipped | lval.h:116-121 | `Reader.Kept`, `Reader.KeptStep` |
| Reader.ReadEach | lval.h:115-124 | `Reader.ReadEachSnoc`, `Reader.ReadChildren`, `Laws.ReadSexpr` |
| Reader.Read | lval.h:101-127 | `Reader.ReadValue`, `Laws.ReadSexpr`, `Laws.ReadEvalLiteral` |
| Printer.Print | lval.h:145-161 | `Printer.ShowInt`, `Printer.PrintSexpr`, `Printer.PrintShortSexpr`, `Printer.PrintReadNum` |
| Printer.ExprPrint | lval.h:131-143 | `Printer.PrintSexpr`, `Printer.PrintShortSexpr` |
| Printer.CellsFrom | lval.h:135-140 | `Printer.CellsFromIsJoin` |
| Printer.Println | lval.h:163-167 | By definition `Print(v) + "\n"`; `Scenarios.PrintingError` |
| Evaluator.TruncDiv | lval.h:228 | `Evaluator.TruncDivTruncates`, `Scenarios.TruncatingDivision` |
| Evaluator.Apply | lval.h:215-229 | `Evaluator.Combine`, `Laws.FoldPlus`, `Laws.FoldMinus`, `Laws.FoldTimes`, `Laws.FoldOther` |
| Evaluator.Step | lval.h:215-229 | `Evaluator.Combine`, `Evaluator.FoldSnoc`, `Evaluator.FoldErrorStays` |
| Evaluator.EvalAll | lval.h:242-244 | `Evaluator.EvalChildren` |
| Evaluator.EvalSexpr | lval.h:240-273 | `Evaluator.EvalCells`, `Laws.EvalShort`, `Laws.EvalFirstErrorWins`, `Laws.EvalNeedsSymbol`, `Laws.EvalDispatch` |
| Evaluator.Eval | lval.h:275-281 | `Evaluator.EvalValue`, `Laws.EvalLeaf`, `Laws.EvalNormal`, `Laws.EvalIdempotent`, `Laws.EvalErrorOrigin` |

`Values.Cells.Holding` has no counterpart in `lval.h`. It puts the
children of an existing value into a `Cells` block, so that
`Evaluator.EvalValue` can run the in-place evaluation on that value.

## Model

| member | source | states |
|---|---|---|
| Values.Released | lval.h:63-84 | `lval_del` frees exactly as many nodes as the tree has, the node itself last and every child before it. |
| Values.ReleasedAll | lval.h:76-78 | The loop over the children frees `SizeAll(cs)` nodes, the sizes of the child subtrees added up, and every child is among them. |
| Values.ReleasedAllAppend | lval.h:76-78 | The loop over the children frees the subtrees of the first children, then those of the rest. |
| Values.ReleasedLayout | lval.h:63-84 | Freeing the children frees the subtrees of the children before `i`, then the whole subtree of child `i` in one block (its descendants before it), then the subtrees of the later children. So every grandchild is freed, and the order is left to right. |
| Values.Cells.Empty | lval.h:54-61 | `lval_sexpr` makes an expression with no children. |
| Values.Cells.Add | lval.h:93-99 | `lval_add` copies the children into a fresh block. `count` grows by one, the earlier children are unchanged and in order, and `x` is the new last child. |
| Values.Cells.Pop | lval.h:169-184 | `lval_pop(v, i)` with `i < count` returns the old child `i`. The children become the old `cell[..i] + cell[i+1..]`, `count` drops by one, and the block is the same one. |
| Values.Cells.ShiftLeft | lval.h:174-176 | The `memmove` moves the slots after `i` one slot to the left. It leaves the slots before `i` untouched, and also slot `count - 1` and every slot after it. |
| Values.ShiftedLeft | lval.h:174-179 | After that shift, the first `count - 1` slots hold every old child except the one at `i`, in order. |
| Values.Cells.Delete | lval.h:75-83 | After `lval_del` on an expression, the node holds no children. Which nodes are freed, and in what order, is stated by `Values.Released`. |
| Values.Cells.Take | lval.h:186-191 | `lval_take(v, i)` returns the old child `i`, and the container is emptied and released. |
| Reader.SkipSpaces | lval.h:89 | `strtol` skips a prefix made only of `isspace` characters. What remains is a suffix of the input that does not start with white space. |
| Reader.DigitPrefix | lval.h:89 | The digits `strtol` converts are the longest prefix of decimal digits. |
| Reader.Kept | lval.h:115-122 | The children the reading loop translates are exactly the children other than `(`, `)` and `regex` nodes. |
| Reader.KeptAppend | lval.h:115-122 | Filtering a concatenation filters each part, keeping the order. |
| Reader.KeptStep | lval.h:115-124 | One iteration of the reading loop appends child `i` exactly when it is not skipped. |
| Reader.ReadEachSnoc | lval.h:123 | Translating one more kept child appends its translation. |
| Reader.ReadValue | lval.h:101-127 | `lval_read` as the source runs it computes `Read(t)`. Numbers are converted, symbols are copied verbatim, and the root or an s-expression becomes an expression of its kept children's translations in order. |
| Reader.ReadChildren | lval.h:109-126 | The appending loop, starting from `lval_sexpr()`, ends with the translations of the kept children, in order, in a fresh node. |
| Reader.AddRead | lval.h:123 | `lval_add(x, lval_read(c))` appends the translation of `c` and changes nothing else in `x`. |
| Printer.ShowNat | lval.h:149 | The decimal text of a natural number is a non-empty string of digits with no leading zero (zero itself is exactly `0`), and its digit value is the number. |
| Printer.ShowInt | lval.h:149 | `%li` prints a minus sign exactly for negative numbers, followed by the decimal digits of the magnitude. |
| Printer.CellsFromIsJoin | lval.h:135-140 | The printing loop writes each child and a space after every child but the last. That is the children's texts joined by single spaces. |
| Printer.PrintSexpr | lval.h:131-158 | An s-expression prints as `(`, its children's texts joined by single spaces, then `)`. |
| Printer.PrintShortSexpr | lval.h:131-143 | The empty expression prints as `()`. A one-child expression prints as its child in parentheses, with no space. |
| Printer.StrTolShowInt | lval.h:89 | `strtol` converts the `%li` text of every integer back to that integer. |
| Printer.StrTolLiteral | lval.h:89 | `strtol` on any text `-?[0-9]+` gives the value of the digits, negated after a minus sign. |
| Printer.ReadNumShowInt | lval.h:86-91 | Reading the printed form of a number gives the number back when it fits in a `long`, and `Err("invalid number")` otherwise. |
| Printer.PrintReadNum | lval.h:86-91 | An in-range number read from its printed form prints back as the same text. |
| Evaluator.TruncDivTruncates | lval.h:228 | `x->num /= y->num` truncates toward zero. The remainder is smaller than the divisor in magnitude, and it is zero or has the sign of the dividend. |
| Evaluator.FoldLeft | lval.h:210-232 | The fold over the operands is a number unless the operator is `/` and some operand is zero. In that case it is exactly `Err("Division By Zero!")`. |
| Evaluator.BuiltinOp | lval.h:193-236 | `builtin_op` returns `Err("Cannot operate on non-number!")` exactly when some operand is not a number. Otherwise it returns a number or the division error. With one numeric operand, `-` negates it and every other operator returns it. |
| Evaluator.FirstError | lval.h:246-251 | The selected child is an error, and no child before it is. When nothing is selected, no child is an error. |
| Evaluator.EvalValue | lval.h:275-281 | `lval_eval` computes `Eval(v)`. |
| Evaluator.EvalCells | lval.h:240-273 | `lval_eval_sexpr` on a node computes `Eval` of the expression it holds and consumes the node. |
| Evaluator.EvalChildren | lval.h:242-244 | Every child is replaced in place by its value, left to right, and the count stays the same. |
| Evaluator.FindError | lval.h:246-251 | Finds an error child exactly when there is one, and returns the index of the first. |
| Evaluator.AllNumbers | lval.h:195-201 | The operand check succeeds exactly when every operand is a number. |
| Evaluator.BuiltinOpCells | lval.h:193-236 | `builtin_op` on the operand node computes `BuiltinOp` of its children and consumes the node. |
| Evaluator.FoldCells | lval.h:210-232 | The `while (a->count > 0)` loop leaves the left fold of the operands in the accumulator, stopping at a zero divisor. The operand node then holds exactly the operands not yet popped: none when the loop ran out. After the `break` they are the operands after the first zero divisor: the fold over the popped operands is the error, and the fold without the last of them is still a number. `lval_del(a)` then frees what is left. |
| Evaluator.FoldStep | lval.h:213-231 | One iteration pops the first remaining operand and applies one step of the fold to the accumulator. |
| Evaluator.Combine | lval.h:215-229 | One loop body applies the operator named by `op` (`+ - * /`, with truncating division), gives the division error on a zero divisor, and leaves the accumulator alone for any other name. |
| Evaluator.FoldSnoc | lval.h:211-232 | Consuming one more operand is one more step of the fold. |
| Evaluator.FoldFinished | lval.h:211-232 | When the loop ends, because the operands ran out or at the `break`, the accumulator equals the fold over all the operands. |
| Evaluator.FoldErrorStays | lval.h:221-227 | Once the accumulator is the division error, further operands change nothing, so the `break` gives the same result as folding on. |
| Laws.FoldPlus | lval.h:215-216 | Folding `+` adds the sum of the operands to the accumulator. |
| Laws.FoldMinus | lval.h:217-218 | Folding `-` subtracts the sum of the operands from the accumulator. |
| Laws.FoldTimes | lval.h:219-220 | Folding `*` multiplies the accumulator by the product of the operands. |
| Laws.FoldOther | lval.h:210-232 | An unrecognised operator leaves the accumulator unchanged. |
| Laws.BuiltinPlus | lval.h:193-236 | `(+ a b ...)` with numeric operands is their sum. |
| Laws.BuiltinTimes | lval.h:193-236 | `(* a b ...)` with numeric operands is their product. |
| Laws.BuiltinMinus | lval.h:206-218 | `(- a)` is `-a`, and `(- a b ...)` is `a` minus the sum of the rest. |
| Laws.BuiltinDivide | lval.h:221-228 | `(/ a b ...)` is the division error exactly when some divisor is zero, and a number exactly when none is. |
| Laws.BuiltinOther | lval.h:193-236 | With an unrecognised operator, the result is the first operand. |
| Laws.EvalLeaf | lval.h:275-281 | Numbers, errors and symbols evaluate to themselves. |
| Laws.EvalNormal | lval.h:240-281 | An evaluation result that is an s-expression is the empty one. |
| Laws.EvalIdempotent | lval.h:240-281 | Evaluating a result again changes nothing. |
| Laws.EvalShort | lval.h:253-259 | `()` evaluates to `()`, and `(x)` evaluates to the value of `x`. |
| Laws.EvalFirstErrorWins | lval.h:242-251 | If a child evaluates to an error and no earlier child does, that error is the value of the expression. |
| Laws.EvalNeedsSymbol | lval.h:261-267 | With no error children, two or more children and a head that is not a symbol, the result is `Err("S-expression does not start with symbol!")`. |
| Laws.EvalDispatch | lval.h:269-272 | With no error children and a head that evaluates to `Sym(op)`, the result is `builtin_op` applied to the values of the other children. |
| Laws.EvalErrorOrigin | lval.h:240-281 | Every error that evaluation returns is either an error already in the tree or one of the evaluator's three messages. |
| Laws.ReadEvalNumber | lval.h:101-104 | A number node holding the canonical text of an in-range number reads as that number and evaluates to it. |
| Laws.ReadEvalLiteral | lval.h:86-104 | A number node holding any literal the number token `-?[0-9]+` matches, leading zeros and `-0` included, reads as the signed value of its digits when that fits in a `long`, and as `Err("invalid number")` otherwise. Either way it evaluates to itself. |
| Laws.ReadSexpr | lval.h:109-126 | A root or s-expression node reads as an expression of its kept children's translations, in order. It prints as `(`, their texts joined by spaces, then `)`. |
| Scenarios.DivisionErrorWins | lval.h:221-227 | `(+ 1 (/ 5 0) 3)` evaluates to `Err("Division By Zero!")`. |
| Scenarios.Negation | lval.h:206-218 | `(- 5)` is -5 and `(- 5 3 1)` is 1. |
| Scenarios.SymbolOperand | lval.h:195-201 | `(+)` is the symbol `+`, and `(+ 1 (+))` is `Err("Cannot operate on non-number!")`. |
| Scenarios.NumberHead | lval.h:261-267 | `(1 2 3)` is `Err("S-expression does not start with symbol!")`. |
| Scenarios.Nested | lval.h:242-244 | `(* 2 (+ 1 2))` is 6. |
| Scenarios.TruncatingDivision | lval.h:228 | `(/ -7 2)` is -3. |
| Scenarios.PrintingExpression | lval.h:131-158 | `(+ 1 -2)` prints as `(+ 1 -2)`. |
| Scenarios.PrintingError | lval.h:154-166 | An error with any message `m` prints as `Error: `, then `m`, then a newline. |

## Left out

- The read-eval-print loop, the grammar definition and the parser are not
  part of this model. These are `main.c`, `number_of_nodes` and the `mpc`
  library. A parse-tree node is given as the value `Reader.Node`.
- Heap bookkeeping is not modelled: `malloc`, `realloc`, `free` and
  allocation counts.
  - Ownership is captured by value semantics and by `Values.Cells`.
  - After a pop, the block keeps its length instead of shrinking with
    `realloc`.
  - `Values.Released` states which nodes `lval_del` frees and in what
    order, not the memory it returns.
- Values.Cells.Add: copies the children into a fresh block one slot
  longer. `realloc` may instead grow the block in place. The model does
  not capture whether the new block aliases the old one.
- The printer returns the text instead of writing it to standard output
  with `printf`/`putchar`.
- Signed overflow in the fold (lval.h:216-220), `LONG_MIN / -1`
  (lval.h:228) and negating `LONG_MIN` (lval.h:208) are undefined
  behaviour in C. Arithmetic is on unbounded integers.
- Reader.Read: requires `Readable(t)`. As written, `lval_read` leaves `x`
  as NULL for a node that is neither a number, a symbol, the root nor an
  s-expression. It then either passes the NULL to `lval_add` or returns
  it. Such trees are excluded, not modelled.
- Evaluator.BuiltinOp: requires at least one operand. `lval_pop(a, 0)` on
  an empty operand list is undefined behaviour, and `lval_eval_sexpr`
  only calls `builtin_op` with one or more operands.
- Values.Cells.Pop: requires `i < count`. Popping out of range is
  undefined behaviour.
- `strtol` is modelled for decimal text in the "C" locale, which is what
  the grammar's number token produces. Locale-specific white space is
  left out.
- The unused `LERR_*` enum (lval.h:22-26) is not modelled.
