/**
  The printer (lval.h:129-167) as functions from a value to the text that
  `lval_print`, `lval_expr_print` and `lval_println` write to standard
  output.
*/
module Printer {
  import opened Values
  import opened Reader

  function DigitChar(d: nat): (c: char)
    requires d < 10
    ensures IsDigit(c) && DigitValue(c) == d
  {
    ('0' as int + d) as char
  }

  /** Decimal digits of `n`, most significant first, with no leading zero. */
  function ShowNat(n: nat): (s: string)
    ensures |s| >= 1
    ensures forall k :: 0 <= k < |s| ==> IsDigit(s[k])
    ensures s[0] == '0' ==> s == "0"
    ensures DigitsValue(s) == n
  {
    if n < 10 then [DigitChar(n)]
    else
      var s := ShowNat(n / 10) + [DigitChar(n % 10)];
      assert s[..|s| - 1] == ShowNat(n / 10);
      s
  }

  /** `printf("%li", n)`: a minus sign for negative numbers, then the
      decimal digits of the magnitude. */
  function ShowInt(n: int): (s: string)
    ensures |s| >= 1
    ensures s[0] == '-' <==> n < 0
    ensures n < 0 ==> s[1..] == ShowNat(-n)
    ensures n >= 0 ==> s == ShowNat(n)
  {
    if n < 0 then "-" + ShowNat(-n) else ShowNat(n)
  }

  /** `lval_print`: the text printed for a value. */
  function Print(v: LVal): string
    decreases v, 2
  {
    match v
    case Num(n) => ShowInt(n)
    case Sym(s) => s
    case Err(m) => "Error: " + m
    case Sexpr(cs) => ExprPrint(v, cs, '(', ')')
  }

  /** `lval_expr_print`: the opening character, the children separated by
      single spaces, then the closing character. */
  function ExprPrint(ghost parent: LVal, cs: seq<LVal>, open: char, close: char): string
    requires forall c :: c in cs ==> c < parent
    decreases parent, 1
  {
    [open] + CellsFrom(parent, cs, 0) + [close]
  }

  /** The output of the printing loop of `lval_expr_print` from index `i`
      on: each child, followed by a space unless it is the last. */
  function CellsFrom(ghost parent: LVal, cs: seq<LVal>, i: nat): string
    requires forall c :: c in cs ==> c < parent
    decreases parent, 0, |cs| - i
  {
    if i >= |cs| then []
    else
      assert cs[i] in cs;
      Print(cs[i]) + (if i != |cs| - 1 then " " else "") + CellsFrom(parent, cs, i + 1)
  }

  /** `lval_println`: the printed text and a newline. */
  function Println(v: LVal): string
  {
    Print(v) + "\n"
  }

  /** Words joined by single spaces: the reference definition of what the
      printing loop produces. */
  function Join(ws: seq<string>): string {
    if ws == [] then ""
    else if |ws| == 1 then ws[0]
    else ws[0] + " " + Join(ws[1..])
  }

  /** The texts of a sequence of values, one per value. */
  function PrintAll(cs: seq<LVal>): (ws: seq<string>)
    ensures |ws| == |cs|
    ensures forall i :: 0 <= i < |cs| ==> ws[i] == Print(cs[i])
  {
    seq(|cs|, i requires 0 <= i < |cs| => Print(cs[i]))
  }

  lemma {:induction false} CellsFromIsJoin(parent: LVal, cs: seq<LVal>, i: nat)
    requires forall c :: c in cs ==> c < parent
    requires i <= |cs|
    ensures CellsFrom(parent, cs, i) == Join(PrintAll(cs)[i..])
    decreases |cs| - i
  {
    if i < |cs| {
      CellsFromIsJoin(parent, cs, i + 1);
      assert PrintAll(cs)[i..][1..] == PrintAll(cs)[i + 1..];
    }
  }

  /** An s-expression prints as `(`, its children's texts joined by single
      spaces, and `)`. */
  lemma PrintSexpr(cs: seq<LVal>)
    ensures Print(Sexpr(cs)) == "(" + Join(PrintAll(cs)) + ")"
  {
    CellsFromIsJoin(Sexpr(cs), cs, 0);
    assert PrintAll(cs)[0..] == PrintAll(cs);
  }

  /** The empty expression prints as `()`; a one-child expression prints its
      child in parentheses, with no space. */
  lemma PrintShortSexpr(x: LVal)
    ensures Print(Sexpr([])) == "()"
    ensures Print(Sexpr([x])) == "(" + Print(x) + ")"
  {
    PrintSexpr([]);
    PrintSexpr([x]);
  }

  // ---------------------------------------------------------------------
  // Number literals: what `printf("%li")` writes, `strtol` reads back
  // ---------------------------------------------------------------------

  lemma {:induction false} DigitPrefixOfDigits(s: string)
    requires forall k :: 0 <= k < |s| ==> IsDigit(s[k])
    ensures DigitPrefix(s) == s
  {
    if s != [] {
      DigitPrefixOfDigits(s[1..]);
    }
  }

  /** `strtol` converts the printed form of every integer back to it. */
  lemma StrTolShowInt(n: int)
    ensures StrTol(ShowInt(n)) == n
  {
    var s := ShowInt(n);
    assert !IsSpace(s[0]);
    assert SkipSpaces(s) == s;
    if n < 0 {
      DigitPrefixOfDigits(s[1..]);
    } else {
      DigitPrefixOfDigits(s);
    }
  }

  /** `strtol` on any text the number token `-?[0-9]+` matches, leading
      zeros and `-0` included: the value of the digits, negated after a
      minus sign. */
  lemma StrTolLiteral(ds: string)
    requires |ds| >= 1 && forall k :: 0 <= k < |ds| ==> IsDigit(ds[k])
    ensures StrTol(ds) == DigitsValue(ds)
    ensures StrTol("-" + ds) == -(DigitsValue(ds) as int)
  {
    DigitPrefixOfDigits(ds);
    assert !IsSpace(ds[0]) && ds[0] != '-' && ds[0] != '+';
    assert SkipSpaces(ds) == ds;
    var m := "-" + ds;
    assert m[0] == '-' && !IsSpace(m[0]);
    assert SkipSpaces(m) == m;
    assert m[1..] == ds;
  }

  /** Reading the printed form of a number gives the number back exactly
      when it fits in a `long`, and the "invalid number" error otherwise. */
  lemma ReadNumShowInt(n: int)
    ensures InLong(n) ==> ReadNum(ShowInt(n)) == Num(n)
    ensures !InLong(n) ==> ReadNum(ShowInt(n)) == Err(InvalidNumber)
  {
    StrTolShowInt(n);
  }

  /** A canonical literal in range prints back as the same text after
      reading. */
  lemma PrintReadNum(n: int)
    requires InLong(n)
    ensures Print(ReadNum(ShowInt(n))) == ShowInt(n)
  {
    ReadNumShowInt(n);
  }
}
