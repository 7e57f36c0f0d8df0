# blisp in Dafny

blisp is a small Lisp-style calculator written in C. This project models two parts of it:

- **The Polish-notation evaluator of main.c.** The parser turns a line such as
  `+ 1 (* 2 3)` into a parse tree. `eval` walks that tree. A node whose tag contains
  "number" is its text read with `atoi`. Any other node takes its operator from its
  second child and its first operand from its third child. It then folds `eval_op`
  left to right over the following children, as long as their tags contain "expr".
  `eval_op` applies one of `+ - * / % ^` to two `long`s and returns 0 for any other
  operator string.
- **The runtime value `struct lval` of lval.h.** This is a tagged record: number,
  error, symbol, S-expression, Q-expression or builtin. Its `cell` list holds child
  values and `count` gives their number. The model covers the number and error
  constructors of lval.c and the list operations lval.h documents. These are
  `lval_add`, `lval_pop`, `lval_take` and `lval_join`, the builtins `head`, `tail`,
  `list` and `join`, and the `LASSERT` guard.

Modules:

- `CLib` (clib.dfy) models the C library and operators that main.c relies on:
  - `strstr` used as a substring test (`Contains`);
  - `atoi`, and the `%ld` rendering that is its inverse;
  - C's truncating `/` and `%` (`Quot`, `Rem`);
  - `(long) pow(x, y)` (`PowCast`).
- `Polish` (polish.dfy) covers main.c:
  - the parse tree `Node`;
  - `EvalOp`;
  - the specification functions `Value` and `Fold`, which return `None` where the C
    code has undefined behaviour;
  - the `Eval` method with its `while` loop, proved against `Value`;
  - lemmas relating the loop to an independent left fold, `FoldLeft`.
- `Values` (values.dfy) holds the `Lval` class (fields `kind`, `num`, `err`, `sym`,
  `count`, `cell`) with its constructors and list methods, and `Lassert`.
  `Valid()` states the invariant of lval.h:30-33: a live value's `count` is the
  length of `cell`.
- `Builtins` (builtins.dfy) holds `head`, `tail`, `list` and `join`.

Notes on the code as written:

- lval.c does not agree with lval.h. The header declares `lval* lval_num(long)` and
  `lval* lval_err(char*)`. lval.c defines `lval lval_num(long)`, which returns a
  struct by value, and `lval lval_err(int)`, which stores an `int` into the
  `char* err` field. The model follows the header's message text: `Err(msg: string)`.
  Each lval.c constructor sets only two fields. The Dafny constructors assign the same
  two fields and promise nothing about the rest.
- The C evaluator in main.c has no unary minus and no division-by-zero check. With a single
  operand the result is that operand (`SingleOperand`). Dividing by zero is undefined
  behaviour, which `Value` reports as `None` and `Eval` excludes in its precondition.
- `^` is modelled. For a non-negative exponent the result is the
  integer power. For a negative exponent it is `1 / x^-y` truncated toward zero,
  which is 0 unless `x` is 1 or -1. `pow(0, negative)` is a pole whose cast is
  undefined.

## Model

| member | source | states |
|---|---|---|
| `CLib.ContainsIff` | main.c:38 | `strstr(s, sub) != NULL` (`Contains`) holds exactly when `sub` occurs at some index of `s`, in both directions |
| `CLib.ContainsAt` | main.c:23 | an occurrence of the tag fragment at a known index makes `strstr` succeed |
| `CLib.NatStringValue` | main.c:24 | reading the decimal digits of `n` most-significant first, as `atoi` does, gives back `n` |
| `CLib.LeadingDigitsOfDigits` | main.c:24 | on a string of digits, `atoi`'s digit scan consumes the whole string |
| `CLib.Atoi` | main.c:24 | `atoi` skips white space, reads an optional sign and then the leading digits; the result is negative only when a minus sign follows the white space |
| `CLib.AtoiNumeral` | main.c:24 | `atoi` reads every text matching the grammar's `-?[0-9]+` as the value of its digits, negated after a minus sign |
| `CLib.LeadingZero` | main.c:24 | a leading zero does not change the value `atoi` reads from a string of digits |
| `CLib.AtoiDecimalString` | main.c:59 | every integer's decimal rendering matches the grammar's number pattern `-?[0-9]+`, and `atoi` reads it back as the same integer |
| `CLib.Quot` | main.c:15 | C's `x / y` truncates toward zero: `q*y` lies between 0 and `x`, less than `|y|` away from `x` |
| `CLib.QuotProduct` | main.c:15 | the quotient taken as `|x| / |y|`, negated when the signs differ, satisfies that truncation rule |
| `CLib.QuotUnique` | main.c:15 | the truncation rule determines the quotient uniquely |
| `CLib.QuotRemNonNegative` | main.c:15-16 | on a non-negative dividend and positive divisor, C's `/` and `%` agree with Euclidean division |
| `CLib.Rem` | main.c:16 | C's `x % y` satisfies `(x/y)*y + r == x`, `|r| < |y|`, and `r` takes the sign of `x` |
| `CLib.Pow` | main.c:17 | integer power: `1^n = 1`, `(-1)^n = ±1` by parity, `0^n = 0` for `n > 0`, and `|x^n| >= 2` when `|x| >= 2` and `n > 0` |
| `CLib.PowCast` | main.c:17 | `(long) pow(x, y)`: the power for `y >= 0`; for `y < 0`, 0 when `|x| >= 2`, 1 when `x == 1`, ±1 by parity when `x == -1` |
| `Polish.EvalOp` | main.c:11-19 | `+`, `-` and `*` are the sum, difference and product, `/` is the quotient truncated toward zero, `%` is the remainder with the dividend's sign, `^` with a negative exponent truncates to 0 for `|x| >= 2`, and any string other than the six operators gives 0 |
| `Polish.EvalOpInverses` | main.c:12-16 | `-` undoes `+`; for `y != 0`, `/` undoes `*` and `%` of a multiple is 0 |
| `Polish.Eval` | main.c:21-44 | on any tree whose evaluation is defined, the recursive loop returns exactly `Value(t)`: number nodes via `atoi`, other nodes by folding `children[1]`'s operator over `children[2]` and the following "expr" children |
| `Polish.FoldLeftSnoc` | main.c:37-41 | one more operand applies the operator once more, on the right of the result so far: `((a op b) op c)`, strictly left to right |
| `Polish.FoldLeftPlus` | main.c:12 | folding `+` gives the start value plus the sum of all operands |
| `Polish.FoldIsFoldLeft` | main.c:37-41 | from index `i` up to the first child whose tag lacks "expr", the loop is the left fold over those children's values |
| `Polish.ValueIsFoldLeft` | main.c:30-41 | a non-number node evaluates to the left fold of the operator in `children[1]`, starting from `children[2]`'s value, over the operands that follow |
| `Polish.SingleOperand` | main.c:33-43 | with one operand the node's value is that operand's value, with no unary negation |
| `Polish.NumberNode` | main.c:23-25 | a node whose tag contains "number" and whose text matches `-?[0-9]+` evaluates to the value of its digits, negated after a minus sign, whatever its children |
| `Polish.RenderedNumberNode` | main.c:23-25 | a number node holding the decimal rendering of `n` evaluates to `n` |
| `Polish.ExampleLeadingZeros` | main.c:24 | the numeral "007", which the grammar accepts, evaluates to 7 |
| `Polish.ExampleNegativeZero` | main.c:24 | the numeral "-0", which the grammar accepts, evaluates to 0 |
| `Polish.GrammarTreesEvaluate` | main.c:59-62 | on every tree the grammar produces that uses only `+ - *`, evaluation is defined: every child read exists |
| `Polish.FoldDefined` | main.c:37-41 | on such a tree, the loop stops at the closing token before running off the children |
| `Polish.ExampleSeven` | main.c:21-44 | the parse tree of `+ 1 (* 2 3)` evaluates to 7 |
| `Polish.ExampleInnerSix` | main.c:21-44 | the parse tree of `(* 2 3)` evaluates to 6 |
| `Polish.ExampleNumbers` | main.c:23-25 | number leaves with texts "1", "2" and "3" evaluate to 1, 2 and 3 |
| `Polish.ExampleTags` | main.c:23 | the parser's tags: number leaves contain "number" and "expr", groups contain "expr" but not "number", and the punctuation tags "char" and "regex" contain neither |
| `Polish.NumberTag` | main.c:23 | the tag "expr\|number\|regex" contains both "number" and "expr" |
| `Polish.GroupTag` | main.c:38 | the tag "expr\|>" contains "expr" but not "number", and the root tag ">" does not contain "number" |
| `Polish.PunctuationTags` | main.c:38 | the tags "char" and "regex" of bracket and anchor tokens do not contain "expr", so the loop stops there |
| `Values.TypeCode` | lval.h:36-37 | the tags `LvalType` are the enumerators `LVAL_NUM` to `LVAL_FUN` with C's codes 0 to 5, all below 6 |
| `Values.TypeOfCode` | lval.h:36-37 | every code below 6 stands for the enumerator whose code it is |
| `Values.TypeCodeRoundTrip` | lval.h:36-37 | distinct enumerators have distinct codes: decoding a tag's code gives back the tag |
| `Values.Lval.Valid` | lval.h:14-34 | the class `Lval` is `struct lval` with `kind`, `num`, `err`, `sym`, `count` and `cell`; a live value's `count` is the number of its cells (lval.h:30-33), which is never negative, and every list method keeps this |
| `Values.Lval.Num` | lval.c:3-8 | `lval_num(n)` makes a value tagged `LVAL_NUM` whose `num` is `n` |
| `Values.Lval.Err` | lval.c:10-15 | `lval_err(msg)` makes a value tagged `LVAL_ERR` whose `err` is `msg` |
| `Values.Lval.Sym` | lval.h:52-53 | `lval_sym(s)` makes a value tagged `LVAL_SYM` holding `s` |
| `Values.Lval.Sexpr` | lval.h:55-56 | `lval_sexpr()` makes an empty, valid S-expression |
| `Values.Lval.Qexpr` | lval.h:58-59 | `lval_qexpr()` makes an empty, valid Q-expression |
| `Values.Lval.Del` | lval.h:70-71 | `lval_del` releases the value |
| `Values.Lval.Add` | lval.h:79-80 | `lval_add(x, y)` makes `y` the last cell of `x`, keeps the earlier cells, grows `count` by one and returns `x` |
| `Values.Lval.Pop` | lval.h:91-95 | `lval_pop(v, i)` returns cell `i` and closes the gap: the other cells keep their order and `count` drops by one |
| `Values.Lval.Take` | lval.h:97-101 | `lval_take(v, i)` returns cell `i`, which stays live, closes the gap as `lval_pop` does, and releases `v` together with every cell it still holds other than the one returned |
| `Values.Lval.Join` | lval.h:103-104 | `lval_join(x, y)` leaves `x`'s cells equal to its old cells followed by all of `y`'s, in order, and returns `x` |
| `Values.Without` | lval.h:91-95 | removing index `i` keeps the cells before `i` in place, moves every later cell down by one, and shortens the list by one |
| `Values.WithoutRestores` | lval.h:91-95 | putting the popped cell back at `i` restores the list; the popped cell and the rest together are exactly the original cells |
| `Values.FlattenSnoc` | lval.h:121-122 | joining one more Q-expression appends its cells after all earlier ones |
| `Values.FlattenLength` | lval.h:121-122 | a join keeps every cell: its length is the sum of the arguments' lengths |
| `Values.Lassert` | lval.h:39-44 | `LASSERT`: when the condition fails, `args` is released and a fresh error value carrying the message is returned; when it holds, nothing changes |
| `Builtins.BuiltinHead` | lval.h:109-110 | the Q-expression is returned holding only its first element |
| `Builtins.BuiltinTail` | lval.h:112-113 | the Q-expression is returned with its first element removed and the rest in order |
| `Builtins.BuiltinList` | lval.h:115-116 | the S-expression is returned, retagged as a Q-expression, with the same cells in the same order |
| `Builtins.BuiltinJoin` | lval.h:121-122 | the first argument is returned as a Q-expression holding the cells of all argument Q-expressions, in argument order |

## Left out

- The read-eval-print loop of `main` (main.c:46-101): readline, history, printing the
  tree and the result. This is input/output only.
- The mpc parser library (`mpca_lang`, `mpc_parse`, `mpc_ast_print`). Its code is not
  part of this model. The parse tree is a given datatype shaped by the grammar at
  main.c:59-62.
- `Polish.EvalOp`: C `long` overflow is not modelled. Integers are unbounded.
- `CLib.Atoi`: overflow of `atoi` on long digit strings, which is undefined in C, is not
  modelled.
- `CLib.PowCast`: main.c:17 converts both `long` operands to `double` and `pow` computes in
  double precision. The model gives the exact integer power, so it may differ from C once
  `|x|`, `|y|` or the result exceeds 2^53. For example, C rounds the exponent 2^53+1 to the
  even 2^53, so `(-1)^(2^53+1)` is 1 in C and -1 here.
- `Polish.Eval`: undefined behaviour is excluded by the precondition (`Value(t)` is
  defined), not modelled. This covers a division or remainder by zero, `pow(0, y)` with
  `y < 0`, and a child read past the end of the tree.
- `lval_eval`, `lval_eval_sexpr`, `builtin`, `builtin_op`, `builtin_eval`, `lval_read`,
  `lval_read_num`: lval.h declares them, but their comments give only a one-line purpose,
  with no reduction rules or error messages, and their bodies are not part of this model.
- Builtins.BuiltinHead: takes a non-empty Q-expression as a precondition. lval.h states no error
  message for other arguments, and the bodies of the builtins are not part of this model.
- Builtins.BuiltinTail: takes a non-empty Q-expression as a precondition, for the same reason.
- Builtins.BuiltinList: takes an S-expression as a precondition, for the same reason.
- Builtins.BuiltinJoin: requires the arguments to be Q-expressions held by a container
  that does not hold itself or its first argument twice. This is the exclusive ownership
  the C code assumes.
- `lval_del`, `free` and `lenv`: memory management. `Del` only marks a value as
  released; it does not release the value's cells recursively. `Take` marks the cells
  left in the list one by one, except the returned cell. The cells dropped by `head`, `tail` and `join` are not marked. The `freed`
  flag is ghost state and stands in for the allocator.
- The `fun` field, `lbuiltin` and `lval_fun`: these are C function pointers with no
  stated contract.
- `lval_print`, `lval_println`, `lval_expr_print`: console output.
- Exclusive ownership of child values (no sharing, no cycles) is not enforced by
  `Valid()`. `Valid()` checks only that `count` matches `cell`.
