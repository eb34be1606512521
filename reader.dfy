/**
  Translation of a parse-tree node of the grammar library into an `lval`
  tree: `lval_read_num` (lval.h:86-91) and `lval_read` (lval.h:101-127).
  The parse tree is given as a value; the grammar that builds it is not part
  of this model.
*/
module Reader {
  import opened Values

  /** A node of the parser's abstract syntax tree: its tag (such as
      `expr|number|regex`, `sexpr|>`, `char` or the root's `>`), the text it
      matched, and its children in order. */
  datatype Node = Node(tag: string, contents: string, children: seq<Node>)

  /** `strstr(hay, needle) != NULL`. */
  predicate Contains(hay: string, needle: string) {
    exists k :: 0 <= k <= |hay| && needle <= hay[k..]
  }

  // ---------------------------------------------------------------------
  // strtol(s, NULL, 10), ISO C99 section 7.20.1.4
  // ---------------------------------------------------------------------

  /** The characters `isspace` accepts in the "C" locale. */
  predicate IsSpace(c: char) {
    c == ' ' || c == '\t' || c == '\n' || c == '\U{000B}' || c == '\U{000C}' || c == '\r'
  }

  predicate IsDigit(c: char) {
    '0' <= c <= '9'
  }

  function DigitValue(c: char): (d: nat)
    requires IsDigit(c)
    ensures d < 10
  {
    (c - '0') as nat
  }

  /** The text after the leading white space. */
  function SkipSpaces(s: string): (t: string)
    ensures |t| <= |s| && t == s[|s| - |t|..]
    ensures t == [] || !IsSpace(t[0])
    ensures forall k :: 0 <= k < |s| - |t| ==> IsSpace(s[k])
  {
    if s != [] && IsSpace(s[0]) then SkipSpaces(s[1..]) else s
  }

  /** The longest prefix made of decimal digits. */
  function DigitPrefix(s: string): (p: string)
    ensures |p| <= |s| && p == s[..|p|]
    ensures forall k :: 0 <= k < |p| ==> IsDigit(p[k])
    ensures |p| == |s| || !IsDigit(s[|p|])
  {
    if s != [] && IsDigit(s[0]) then [s[0]] + DigitPrefix(s[1..]) else []
  }

  /** The value of a string of decimal digits, most significant first. */
  function DigitsValue(ds: string): nat
    requires forall k :: 0 <= k < |ds| ==> IsDigit(ds[k])
  {
    if ds == [] then 0
    else DigitsValue(ds[..|ds| - 1]) * 10 + DigitValue(ds[|ds| - 1])
  }

  /** The mathematical value of the subject sequence `strtol` converts:
      white space, an optional sign, then as many digits as there are; 0 when
      there are none. */
  function StrTol(s: string): int {
    var t := SkipSpaces(s);
    if t != [] && t[0] == '-' then -(DigitsValue(DigitPrefix(t[1..])) as int)
    else if t != [] && t[0] == '+' then DigitsValue(DigitPrefix(t[1..]))
    else DigitsValue(DigitPrefix(t))
  }

  /** `lval_read_num`: the converted number when it fits in a `long`,
      otherwise (`strtol` sets `errno` to `ERANGE`) the error
      "invalid number" instead of the clamped value. */
  function ReadNum(s: string): LVal
  {
    var x := StrTol(s);
    if InLong(x) then Num(x) else Err(InvalidNumber)
  }

  // ---------------------------------------------------------------------
  // lval_read
  // ---------------------------------------------------------------------

  /** The children the reading loop passes over: the `(` and `)` tokens and
      the `regex` anchor nodes. */
  predicate Skipped(t: Node) {
    t.contents == "(" || t.contents == ")" || t.tag == "regex"
  }

  /** The children the reading loop translates, in order. */
  function Kept(cs: seq<Node>): (ks: seq<Node>)
    ensures |ks| <= |cs|
    ensures forall i :: 0 <= i < |ks| ==> ks[i] in cs && !Skipped(ks[i])
    ensures forall c :: c in cs && !Skipped(c) ==> c in ks
  {
    if cs == [] then []
    else if Skipped(cs[0]) then Kept(cs[1..])
    else [cs[0]] + Kept(cs[1..])
  }

  /** Whether `lval_read(t)` is defined: every node it translates is tagged
      as a number, a symbol, an s-expression or the root. A node with any
      other tag yields NULL in the source, which the parent then dereferences
      in `lval_add`. */
  predicate Readable(t: Node)
    decreases t
  {
    if Contains(t.tag, "number") || Contains(t.tag, "symbol") then true
    else
      (t.tag == ">" || Contains(t.tag, "sexpr")) &&
      forall c :: c in t.children && !Skipped(c) ==> Readable(c)
  }

  /** `lval_read`: numbers and symbols become leaves; the root and
      s-expression nodes become an `Sexpr` of their kept children. */
  function Read(t: Node): (r: LVal)
    requires Readable(t)
    decreases t, 1
  {
    if Contains(t.tag, "number") then ReadNum(t.contents)
    else if Contains(t.tag, "symbol") then Sym(t.contents)
    else Sexpr(ReadEach(t, Kept(t.children)))
  }

  /** The translations of the nodes `ks`, children of `parent`, in order. */
  function ReadEach(ghost parent: Node, ks: seq<Node>): seq<LVal>
    requires forall i :: 0 <= i < |ks| ==> ks[i] < parent && Readable(ks[i])
    decreases parent, 0
  {
    seq(|ks|, i requires 0 <= i < |ks| => Read(ks[i]))
  }

  /** The kept children of a concatenation are the kept children of each
      part, in order. */
  lemma {:induction false} KeptAppend(xs: seq<Node>, ys: seq<Node>)
    ensures Kept(xs + ys) == Kept(xs) + Kept(ys)
  {
    if xs == [] {
      assert xs + ys == ys;
    } else {
      assert (xs + ys)[1..] == xs[1..] + ys;
      KeptAppend(xs[1..], ys);
    }
  }

  /** One iteration of the reading loop: child `i` is appended unless it is
      a parenthesis or a regex anchor. */
  lemma KeptStep(cs: seq<Node>, i: nat)
    requires i < |cs|
    ensures Kept(cs[..i + 1]) ==
      Kept(cs[..i]) + (if Skipped(cs[i]) then [] else [cs[i]])
  {
    assert cs[..i + 1] == cs[..i] + [cs[i]];
    KeptAppend(cs[..i], [cs[i]]);
  }

  /** Reading one more kept child appends its translation. */
  lemma ReadEachSnoc(parent: Node, ks: seq<Node>, k: Node)
    requires forall i :: 0 <= i < |ks| ==> ks[i] < parent && Readable(ks[i])
    requires k < parent && Readable(k)
    ensures ReadEach(parent, ks + [k]) == ReadEach(parent, ks) + [Read(k)]
  {
  }

  /** `lval_read` as the source runs it: a leaf is built directly; an
      expression node starts empty and `lval_add` appends the translation
      of each kept child in turn. */
  method ReadValue(t: Node) returns (r: LVal)
    requires Readable(t)
    ensures r == Read(t)
    decreases t, 2
  {
    if Contains(t.tag, "number") {
      return ReadNum(t.contents);
    }
    if Contains(t.tag, "symbol") {
      return Sym(t.contents);
    }
    var x := ReadChildren(t);
    r := Sexpr(x.cell[..x.count]);
  }

  /** The loop of `lval_read` over the children of `t`. */
  method ReadChildren(t: Node) returns (x: Cells)
    requires forall c :: c in t.children && !Skipped(c) ==> Readable(c)
    ensures x.Valid() && fresh(x)
    ensures x.Items() == ReadEach(t, Kept(t.children))
    decreases t, 1
  {
    var cs := t.children;
    x := new Cells.Empty();
    ghost var done: seq<Node> := [];
    var i := 0;
    while i < |cs|
      invariant 0 <= i <= |cs| && x.Valid() && fresh(x)
      invariant done == Kept(cs[..i])
      invariant x.Items() == ReadEach(t, done)
    {
      KeptStep(cs, i);
      if !Skipped(cs[i]) {
        assert cs[i] in cs;
        AddRead(x, t, cs[i]);
        ReadEachSnoc(t, done, cs[i]);
        done := done + [cs[i]];
      }
      i := i + 1;
    }
    assert cs[..i] == cs;
  }

  /** The body of that loop for a kept child `c` of `parent`:
      `lval_add(x, lval_read(c))`. */
  method AddRead(x: Cells, ghost parent: Node, c: Node)
    requires x.Valid() && c < parent && Readable(c)
    modifies x
    ensures x.Valid() && fresh(x.cell)
    ensures x.Items() == old(x.Items()) + [Read(c)]
    decreases parent, 0
  {
    var child := ReadValue(c);
    x.Add(child);
  }
}
