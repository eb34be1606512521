/**
  The value model of the interpreter: the tagged tree `lval` (lval.h:6-20) as
  a datatype, the recursive destructor as the order in which it releases
  nodes, and the `cell`/`count` child array of an s-expression as a class
  whose methods do the in-place list surgery of `lval_add`, `lval_pop` and
  `lval_take`.
*/
module Values {

  /** An `lval`: a number, an error message, a symbol, or an s-expression
      owning its children. The constructors play the part of `lval_num`,
      `lval_err`, `lval_sym` and (with `[]`) `lval_sexpr`. */
  datatype LVal =
    | Num(num: int)
    | Err(err: string)
    | Sym(sym: string)
    | Sexpr(cells: seq<LVal>)

  /** The error messages the core produces. */
  const InvalidNumber: string := "invalid number"
  const NonNumber: string := "Cannot operate on non-number!"
  const DivisionByZero: string := "Division By Zero!"
  const NoLeadingSymbol: string := "S-expression does not start with symbol!"

  /** The range of a C `long` on an LP64 platform. */
  const LongMin: int := -0x8000_0000_0000_0000
  const LongMax: int := 0x7FFF_FFFF_FFFF_FFFF

  predicate InLong(n: int) {
    LongMin <= n <= LongMax
  }

  /** Number of `lval` nodes in a tree. */
  function Size(v: LVal): (n: nat)
    ensures n >= 1
    decreases v
  {
    match v
    case Sexpr(cs) => 1 + SizeAll(cs)
    case _ => 1
  }

  function SizeAll(cs: seq<LVal>): nat
    decreases cs
  {
    if cs == [] then 0 else Size(cs[0]) + SizeAll(cs[1..])
  }

  /** The nodes released by `lval_del(v)`, in the order it frees them: every
      child subtree first, left to right, then the node itself. */
  function Released(v: LVal): (r: seq<LVal>)
    ensures |r| == Size(v)
    ensures r[|r| - 1] == v
    ensures v.Sexpr? ==> forall k :: 0 <= k < |v.cells| ==> v.cells[k] in r
    decreases v
  {
    match v
    case Sexpr(cs) => ReleasedAll(cs) + [v]
    case _ => [v]
  }

  /** The nodes released for the children `cs`, one whole subtree after
      another. */
  function ReleasedAll(cs: seq<LVal>): (r: seq<LVal>)
    ensures |r| == SizeAll(cs)
    ensures forall k :: 0 <= k < |cs| ==> cs[k] in r
    decreases cs
  {
    if cs == [] then []
    else
      var head := Released(cs[0]);
      var tail := ReleasedAll(cs[1..]);
      assert forall k :: 1 <= k < |cs| ==> cs[k] == cs[1..][k - 1];
      head + tail
  }

  /** Releasing the children `xs + ys` releases those of `xs`, then those
      of `ys`. */
  lemma {:induction false} ReleasedAllAppend(xs: seq<LVal>, ys: seq<LVal>)
    ensures ReleasedAll(xs + ys) == ReleasedAll(xs) + ReleasedAll(ys)
    decreases |xs|
  {
    if xs == [] {
      assert xs + ys == ys;
    } else {
      assert (xs + ys)[1..] == xs[1..] + ys;
      ReleasedAllAppend(xs[1..], ys);
    }
  }

  /** `lval_del` on an expression releases the subtrees of the children
      before `i`, then the whole subtree of child `i` (its own descendants
      before it), then the subtrees of the later children; the expression
      node itself comes last (`Released`). */
  lemma ReleasedLayout(cs: seq<LVal>, i: nat)
    requires i < |cs|
    ensures ReleasedAll(cs) == ReleasedAll(cs[..i]) + (Released(cs[i]) + ReleasedAll(cs[i + 1..]))
  {
    assert ReleasedAll(cs[i..]) == Released(cs[i]) + ReleasedAll(cs[i + 1..]) by {
      assert cs[i..][0] == cs[i] && cs[i..][1..] == cs[i + 1..];
    }
    assert cs == cs[..i] + cs[i..];
    ReleasedAllAppend(cs[..i], cs[i..]);
  }

  /** The children after the shift of `lval_pop`: slot `i` and those after
      it hold their right neighbours, so dropping the last slot leaves every
      child but the one at `i`. */
  lemma ShiftedLeft(before: seq<LVal>, after: seq<LVal>, i: nat)
    requires |after| == |before| && i < |before|
    requires forall k :: 0 <= k < i ==> after[k] == before[k]
    requires forall k :: i <= k < |before| - 1 ==> after[k] == before[k + 1]
    ensures after[..|after| - 1] == before[..i] + before[i + 1..]
  {
  }

  /**
    The `cell`/`count` pair of an `LVAL_SEXPR` node. The children live in
    `cell[..count]`; the array may be longer than `count` after a pop, since
    shrinking the block with `realloc` is storage management only.
  */
  class Cells {
    var cell: array<LVal>
    var count: nat

    ghost predicate Valid()
      reads this
    {
      count <= cell.Length
    }

    /** The children, in order. */
    function Items(): (s: seq<LVal>)
      reads this, cell
      requires Valid()
      ensures |s| == count
    {
      cell[..count]
    }

    /** `lval_sexpr`: an expression with no children. */
    constructor Empty()
      ensures Valid() && fresh(cell)
      ensures Items() == []
    {
      cell := new LVal[0];
      count := 0;
    }

    /** An expression node that already holds the children `cs`. */
    constructor Holding(cs: seq<LVal>)
      ensures Valid() && fresh(cell)
      ensures Items() == cs
    {
      cell := new LVal[|cs|](i requires 0 <= i < |cs| => cs[i]);
      count := |cs|;
    }

    /** `lval_add`: grow the block by one slot, keep the old children in
        place and store `x` in the new last slot. */
    method Add(x: LVal)
      requires Valid()
      modifies this
      ensures Valid() && fresh(cell)
      ensures count == old(count) + 1
      ensures Items() == old(Items()) + [x]
    {
      var grown := new LVal[count + 1];
      var i := 0;
      while i < count
        invariant cell == old(cell) && count == old(count) && Valid()
        invariant grown.Length == count + 1
        invariant 0 <= i <= count
        invariant forall j :: 0 <= j < i ==> grown[j] == cell[j]
      {
        grown[i] := cell[i];
        i := i + 1;
      }
      grown[count] := x;
      cell := grown;
      count := count + 1;
    }

    /** `lval_pop`: detach the child at `i` and shift the later children one
        slot to the left. */
    method Pop(i: nat) returns (x: LVal)
      requires Valid() && i < count
      modifies this, cell
      ensures Valid() && cell == old(cell)
      ensures x == old(Items())[i]
      ensures count == old(count) - 1
      ensures Items() == old(Items())[..i] + old(Items())[i + 1..]
    {
      x := cell[i];
      ghost var before := cell[..count];
      ShiftLeft(i);
      ShiftedLeft(before, cell[..count], i);
      count := count - 1;
    }

    /** The `memmove` of `lval_pop`: slots `i + 1 .. count - 1` move one
        slot to the left. */
    method ShiftLeft(i: nat)
      requires Valid() && i < count
      modifies cell
      ensures forall k :: 0 <= k < i ==> cell[k] == old(cell[k])
      ensures forall k :: i <= k < count - 1 ==> cell[k] == old(cell[k + 1])
      ensures forall k :: count - 1 <= k < cell.Length ==> cell[k] == old(cell[k])
    {
      var j := i;
      while j + 1 < count
        invariant i <= j < count
        invariant forall k :: 0 <= k < i ==> cell[k] == old(cell[k])
        invariant forall k :: i <= k < j ==> cell[k] == old(cell[k + 1])
        invariant forall k :: j <= k < cell.Length ==> cell[k] == old(cell[k])
      {
        cell[j] := cell[j + 1];
        j := j + 1;
      }
    }

    /** `lval_del` applied to this node: the node holds nothing afterwards.
        Which nodes `lval_del` frees, and in what order, is `Released`. */
    method Delete()
      requires Valid()
      modifies this
      ensures Valid() && fresh(cell)
      ensures Items() == []
    {
      cell := new LVal[0];
      count := 0;
    }

    /** `lval_take`: pop the child at `i`, then release this node together
        with the children that remain in it. */
    method Take(i: nat) returns (x: LVal)
      requires Valid() && i < count
      modifies this, cell
      ensures Valid() && fresh(cell)
      ensures x == old(Items())[i]
      ensures Items() == []
    {
      x := Pop(i);
      Delete();
    }
  }
}
