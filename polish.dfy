/** The Polish-notation integer calculator of main.c: `eval_op`, which applies
    one operator to two integers, and `eval`, which walks the parse tree the
    grammar produces and folds each group's operands left to right. */
module Polish {
  import opened CLib

  datatype Option<T> = None | Some(value: T)

  /** A parse-tree node as the parser hands it over: a tag such as
      "expr|number|regex", the matched text, and the ordered children. */
  datatype Node = Node(tag: string, contents: string, children: seq<Node>)

  /** The operator strings of the grammar's `operator` rule. */
  predicate IsOperator(op: string) {
    op == "+" || op == "-" || op == "*" || op == "/" || op == "%" || op == "^"
  }

  /** When `eval_op(op, x, y)` has a defined result in C: `/` and `%` need a
      non-zero divisor, and `pow(0, y)` with `y < 0` is a pole. */
  predicate OpDefined(op: string, x: int, y: int) {
    && (op == "/" || op == "%" ==> y != 0)
    && (op == "^" && y < 0 ==> x != 0)
  }

  /** `eval_op`: the six operators of the grammar, and 0 for any other string. */
  function EvalOp(op: string, x: int, y: int): (r: int)
    requires OpDefined(op, x, y)
    ensures op == "/" && x >= 0 ==> 0 <= r * y <= x && x - r * y < Abs(y)
    ensures op == "/" && x < 0 ==> x <= r * y <= 0 && r * y - x < Abs(y)
    ensures op == "%" ==> Quot(x, y) * y + r == x && Abs(r) < Abs(y)
    ensures op == "%" ==> (x >= 0 ==> r >= 0) && (x < 0 ==> r <= 0)
    ensures op == "^" && y < 0 && Abs(x) >= 2 ==> r == 0
    ensures op == "+" ==> r == x + y
    ensures op == "-" ==> r == x - y
    ensures op == "*" ==> r == x * y
    ensures !IsOperator(op) ==> r == 0
  {
    if op == "+" then x + y
    else if op == "-" then x - y
    else if op == "*" then x * y
    else if op == "/" then Quot(x, y)
    else if op == "%" then Rem(x, y)
    else if op == "^" then PowCast(x, y)
    else 0
  }

  /** Each operator undoes its partner: subtracting `y` undoes adding it, and
      C's truncating division by `y` undoes multiplying by it, leaving no remainder. */
  lemma EvalOpInverses(x: int, y: int)
    ensures EvalOp("-", EvalOp("+", x, y), y) == x
    ensures y != 0 ==> EvalOp("/", EvalOp("*", x, y), y) == x
    ensures y != 0 ==> EvalOp("%", EvalOp("*", x, y), y) == 0
  {
    if y != 0 {
      var p := x * y;
      if p >= 0 {
        assert 0 <= x * y <= p && p - x * y < Abs(y);
      } else {
        assert p <= x * y <= 0 && x * y - p < Abs(y);
      }
      QuotUnique(p, y, x);
    }
  }

  // ---------------------------------------------------------------------------
  // eval

  /** What `eval(t)` returns, or None where the C code has undefined behaviour:
      it reads a child past the end of `children`, divides by zero, or casts
      `pow(0, negative)`. A node whose tag contains "number" is its text read by
      `atoi`; any other node takes its operator from `children[1]` and folds it
      over `children[2]` and the children after it whose tag contains "expr". */
  function Value(t: Node): Option<int>
    decreases t, |t.children| + 1
  {
    if Contains(t.tag, "number") then Some(Atoi(t.contents))
    else if |t.children| < 3 then None
    else match Value(t.children[2])
      case None => None
      case Some(first) => Fold(t, t.children[1].contents, first, 3)
  }

  /** The `while` loop of `eval` from index `i` on, with accumulator `acc`. */
  function Fold(t: Node, op: string, acc: int, i: nat): Option<int>
    decreases t, |t.children| - i
  {
    if i >= |t.children| then None
    else if !Contains(t.children[i].tag, "expr") then Some(acc)
    else match Value(t.children[i])
      case None => None
      case Some(v) =>
        if OpDefined(op, acc, v) then Fold(t, op, EvalOp(op, acc, v), i + 1) else None
  }

  /** `eval`: a number node is read with `atoi`; otherwise the first operand is
      evaluated and each following "expr" child is combined into the result. */
  method Eval(t: Node) returns (r: int)
    requires Value(t).Some?
    ensures Value(t) == Some(r)
    decreases t
  {
    if Contains(t.tag, "number") {
      return Atoi(t.contents);
    }
    var op := t.children[1].contents;
    r := Eval(t.children[2]);
    var i := 3;
    while Contains(t.children[i].tag, "expr")
      invariant 3 <= i < |t.children|
      invariant Fold(t, op, r, i) == Value(t)
      decreases |t.children| - i
    {
      var v := Eval(t.children[i]);
      r := EvalOp(op, r, v);
      i := i + 1;
    }
  }

  // ---------------------------------------------------------------------------
  // The fold, stated independently of the tree

  /** The left fold of `op` over `vs`, starting from `acc`: ((acc op v0) op v1) ... */
  function FoldLeft(op: string, acc: int, vs: seq<int>): Option<int>
    decreases |vs|
  {
    if vs == [] then Some(acc)
    else if OpDefined(op, acc, vs[0]) then FoldLeft(op, EvalOp(op, acc, vs[0]), vs[1..])
    else None
  }

  function Sum(vs: seq<int>): int {
    if vs == [] then 0 else vs[0] + Sum(vs[1..])
  }

  /** Extending the operand list by one operand applies `op` once more, to the
      result so far and the new operand, on the right: the fold is strictly left to right. */
  lemma {:induction false} FoldLeftSnoc(op: string, acc: int, vs: seq<int>, v: int)
    ensures FoldLeft(op, acc, vs + [v]) ==
      match FoldLeft(op, acc, vs)
      case None => None
      case Some(a) => if OpDefined(op, a, v) then Some(EvalOp(op, a, v)) else None
    decreases |vs|
  {
    if vs == [] {
      assert vs + [v] == [v];
    } else {
      assert (vs + [v])[1..] == vs[1..] + [v];
      if OpDefined(op, acc, vs[0]) {
        FoldLeftSnoc(op, EvalOp(op, acc, vs[0]), vs[1..], v);
      }
    }
  }

  /** Folding "+" adds up all operands. */
  lemma {:induction false} FoldLeftPlus(acc: int, vs: seq<int>)
    ensures FoldLeft("+", acc, vs) == Some(acc + Sum(vs))
    decreases |vs|
  {
    if vs != [] {
      FoldLeftPlus(acc + vs[0], vs[1..]);
    }
  }

  /** `k` is where the loop of `eval` stops on `t`: the first index from 3 on
      whose child's tag does not contain "expr". */
  predicate StopsAt(t: Node, k: nat) {
    && 3 <= k < |t.children|
    && !Contains(t.children[k].tag, "expr")
    && forall j :: 3 <= j < k ==> Contains(t.children[j].tag, "expr")
  }

  /** The loop from index `i` is the left fold over the values of children `i` to `k - 1`. */
  lemma {:induction false} FoldIsFoldLeft(t: Node, op: string, acc: int, i: nat, k: nat, vs: seq<int>)
    requires StopsAt(t, k) && 3 <= i <= k
    requires |vs| == k - 3
    requires forall j :: 0 <= j < |vs| ==> Value(t.children[3 + j]) == Some(vs[j])
    ensures Fold(t, op, acc, i) == FoldLeft(op, acc, vs[i - 3..])
    decreases k - i
  {
    if i < k {
      assert Value(t.children[i]) == Some(vs[i - 3]);
      assert vs[i - 3..][1..] == vs[i - 2..];
      if OpDefined(op, acc, vs[i - 3]) {
        FoldIsFoldLeft(t, op, EvalOp(op, acc, vs[i - 3]), i + 1, k, vs);
      }
    }
  }

  /** A group node evaluates to the left fold of its operator over its
      operands' values, the first operand being the start. */
  lemma ValueIsFoldLeft(t: Node, k: nat, first: int, vs: seq<int>)
    requires !Contains(t.tag, "number") && StopsAt(t, k)
    requires Value(t.children[2]) == Some(first)
    requires |vs| == k - 3
    requires forall j :: 0 <= j < |vs| ==> Value(t.children[3 + j]) == Some(vs[j])
    ensures Value(t) == FoldLeft(t.children[1].contents, first, vs)
  {
    FoldIsFoldLeft(t, t.children[1].contents, first, 3, k, vs);
    assert vs[0..] == vs;
  }

  /** With a single operand the group is that operand's value: no unary minus. */
  lemma SingleOperand(t: Node)
    requires !Contains(t.tag, "number") && StopsAt(t, 3)
    ensures Value(t) == Value(t.children[2])
  {
  }

  /** A number node is its text read as an integer, whatever its children: every
      text the grammar's `number` rule accepts, leading zeros and "-0" included,
      is the value of its digits, negated after a leading minus sign. */
  lemma NumberNode(tag: string, s: string, children: seq<Node>)
    requires Contains(tag, "number") && IsNumeral(s)
    ensures Value(Node(tag, s, children))
              == Some(if s[0] == '-' then -(DigitsValue(s[1..]) as int) else DigitsValue(s))
  {
    AtoiNumeral(s);
  }

  /** In particular a number node holding the decimal rendering of `n` is `n`. */
  lemma RenderedNumberNode(tag: string, n: int, children: seq<Node>)
    requires Contains(tag, "number")
    ensures Value(Node(tag, DecimalString(n), children)) == Some(n)
  {
    AtoiDecimalString(n);
  }

  // ---------------------------------------------------------------------------
  // Trees of the grammar
  //   number:   /-?[0-9]+/ ;
  //   operator: '+' | '-' | '*' | '/' | '%' | '^' ;
  //   expr:     <number> | '(' <operator> <expr>+ ')' ;
  //   blisp:    /^/ <operator> <expr>+ /$/ ;

  /** A tree the grammar can produce: a number leaf, or a group whose children
      are an opening token, an operator, one or more expressions and a closing
      token whose tag does not contain "expr". */
  predicate IsExpr(t: Node)
    decreases t, 1
  {
    if Contains(t.tag, "number") then IsNumeral(t.contents)
    else IsGroup(t)
  }

  predicate IsGroup(t: Node)
    decreases t, 0
  {
    && |t.children| >= 4
    && IsOperator(t.children[1].contents)
    && !Contains(t.children[|t.children| - 1].tag, "expr")
    && forall j :: 2 <= j < |t.children| - 1 ==>
         Contains(t.children[j].tag, "expr") && IsExpr(t.children[j])
  }

  /** Only `+`, `-` and `*` occur in the tree. */
  predicate RingOnly(t: Node) {
    forall j :: 0 <= j < |t.children| ==> RingOnlyChild(t, j)
  }

  predicate RingOnlyChild(t: Node, j: nat)
    requires j < |t.children|
    decreases t, 0
  {
    && (j == 1 ==> t.children[1].contents in {"+", "-", "*"})
    && RingOnly(t.children[j])
  }

  /** `eval` never reaches undefined behaviour on a tree of the grammar in which
      only `+`, `-` and `*` occur: it reads no child past the end. */
  lemma {:induction false} GrammarTreesEvaluate(t: Node)
    requires IsExpr(t) && RingOnly(t)
    ensures Value(t).Some?
    decreases t, |t.children| + 1
  {
    if !Contains(t.tag, "number") {
      assert RingOnlyChild(t, 1) && RingOnlyChild(t, 2);
      GrammarTreesEvaluate(t.children[2]);
      var first := Value(t.children[2]).value;
      FoldDefined(t, first, 3);
    }
  }

  lemma {:induction false} FoldDefined(t: Node, acc: int, i: nat)
    requires !Contains(t.tag, "number") && IsGroup(t) && RingOnly(t)
    requires 3 <= i < |t.children|
    ensures Fold(t, t.children[1].contents, acc, i).Some?
    decreases t, |t.children| - i
  {
    if i < |t.children| - 1 {
      assert RingOnlyChild(t, 1) && RingOnlyChild(t, i);
      GrammarTreesEvaluate(t.children[i]);
      var v := Value(t.children[i]).value;
      FoldDefined(t, EvalOp(t.children[1].contents, acc, v), i + 1);
    }
  }

  /** The tags the parser gives the nodes of `+ 1 (* 2 3)`, and what `eval` finds in them. */
  lemma ExampleTags()
    ensures Contains("expr|number|regex", "number") && Contains("expr|number|regex", "expr")
    ensures Contains("expr|>", "expr") && !Contains("expr|>", "number") && !Contains(">", "number")
    ensures !Contains("char", "expr") && !Contains("regex", "expr")
    ensures !Contains("char", "number") && !Contains("regex", "number")
  {
    NumberTag();
    GroupTag();
    PunctuationTags();
  }

  lemma NumberTag()
    ensures Contains("expr|number|regex", "number") && Contains("expr|number|regex", "expr")
  {
    var num := "expr|number|regex";
    assert num[5..11] == "number";
    ContainsAt(num, "number", 5);
    assert num[0..4] == "expr";
    ContainsAt(num, "expr", 0);
  }

  lemma GroupTag()
    ensures Contains("expr|>", "expr") && !Contains("expr|>", "number") && !Contains(">", "number")
  {
    assert Contains("expr|>", "expr") by {
      ContainsIff("expr|>", "expr");
      assert "expr" <= "expr|>"[0..];
    }
    assert !("number" <= "expr|>") by { assert "expr|>"[0] != "number"[0]; }
  }

  lemma PunctuationTags()
    ensures !Contains("char", "expr") && !Contains("regex", "expr")
  {
    assert !("expr" <= "char") by { assert "char"[0] != "expr"[0]; }
    assert !("expr" <= "regex") by { assert "regex"[0] != "expr"[0]; }
    assert !("expr" <= "regex"[1..]) by { assert "regex"[2] != "expr"[1]; }
  }

  /** The tree of `(* 2 3)`. */
  function ExampleInner(): Node {
    Node("expr|>", "", [
      Node("char", "(", []),
      Node("operator|char", "*", []),
      Node("expr|number|regex", "2", []),
      Node("expr|number|regex", "3", []),
      Node("char", ")", [])])
  }

  /** The tree of the whole line `+ 1 (* 2 3)`. */
  function ExampleRoot(): Node {
    Node(">", "", [
      Node("regex", "", []),
      Node("operator|char", "+", []),
      Node("expr|number|regex", "1", []),
      ExampleInner(),
      Node("regex", "", [])])
  }

  lemma ExampleNumbers()
    ensures Value(Node("expr|number|regex", "1", [])) == Some(1)
    ensures Value(Node("expr|number|regex", "2", [])) == Some(2)
    ensures Value(Node("expr|number|regex", "3", [])) == Some(3)
  {
    ExampleTags();
    assert DecimalString(1) == "1" && DecimalString(2) == "2" && DecimalString(3) == "3";
    RenderedNumberNode("expr|number|regex", 1, []);
    RenderedNumberNode("expr|number|regex", 2, []);
    RenderedNumberNode("expr|number|regex", 3, []);
  }

  /** A numeral with leading zeros reads like its shortest rendering: "007" is 7. */
  lemma ExampleLeadingZeros()
    ensures Value(Node("expr|number|regex", "007", [])) == Some(7)
  {
    NumberTag();
    assert DigitsValue("007") == 7 by {
      assert AllDigits("7") && DigitsValue("7") == 7 by { assert "7"[..0] == []; }
      LeadingZero("7");
      assert "0" + "7" == "07";
      LeadingZero("07");
      assert "0" + "07" == "007";
    }
    assert IsNumeral("007") && "007"[0] != '-';
    NumberNode("expr|number|regex", "007", []);
  }

  /** The numeral "-0" reads as 0. */
  lemma ExampleNegativeZero()
    ensures Value(Node("expr|number|regex", "-0", [])) == Some(0)
  {
    NumberTag();
    assert "-0"[1..] == "0" && DigitsValue("0") == 0 by { assert "0"[..0] == []; }
    assert IsNumeral("-0");
    NumberNode("expr|number|regex", "-0", []);
  }

  lemma ExampleInnerSix()
    ensures Value(ExampleInner()) == Some(6)
  {
    var inner := ExampleInner();
    ExampleTags();
    ExampleNumbers();
    var cs := inner.children;
    assert !Contains(inner.tag, "number") && |cs| == 5;
    assert cs[1].contents == "*" && Value(cs[2]) == Some(2);
    assert Contains(cs[3].tag, "expr") && Value(cs[3]) == Some(3);
    assert !Contains(cs[4].tag, "expr");
    assert EvalOp("*", 2, 3) == 6;
    assert Fold(inner, "*", 6, 4) == Some(6);
    assert Fold(inner, "*", 2, 3) == Some(6);
  }

  /** `+ 1 (* 2 3)` evaluates to 7. */
  lemma ExampleSeven()
    ensures Value(ExampleRoot()) == Some(7)
  {
    var root := ExampleRoot();
    ExampleTags();
    ExampleNumbers();
    ExampleInnerSix();
    assert EvalOp("+", 1, 6) == 7;
    assert Fold(root, "+", 7, 4) == Some(7);
    assert Fold(root, "+", 1, 3) == Some(7);
  }
}
