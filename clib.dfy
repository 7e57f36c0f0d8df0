/** The pieces of the C runtime that the evaluator in main.c leans on: `strstr`
    (used as a substring test), `atoi`, the `%ld` decimal rendering that is its
    inverse, the truncating `/` and `%` on `long`, and `pow` cast back to `long`.
    C's `long` is modelled by the unbounded `int`. */
module CLib {

  function Abs(x: int): nat {
    if x < 0 then -x else x
  }

  // ---------------------------------------------------------------------------
  // strstr(s, sub) != NULL

  /** True when `sub` occurs somewhere in `s`, as `strstr` reports it. */
  function Contains(s: string, sub: string): bool
    decreases |s|
  {
    if |sub| > |s| then false
    else if sub <= s then true
    else Contains(s[1..], sub)
  }

  /** `Contains` agrees with the plain definition of an occurrence, in both directions. */
  lemma {:induction false} ContainsIff(s: string, sub: string)
    ensures Contains(s, sub) <==> exists i :: 0 <= i <= |s| && sub <= s[i..]
    decreases |s|
  {
    if |sub| > |s| {
      forall i | 0 <= i <= |s| ensures !(sub <= s[i..]) { }
    } else if sub <= s {
      assert s[0..] == s;
    } else {
      ContainsIff(s[1..], sub);
      if Contains(s[1..], sub) {
        var i :| 0 <= i <= |s[1..]| && sub <= s[1..][i..];
        assert s[1..][i..] == s[i + 1..];
      }
      if exists i :: 0 <= i <= |s| && sub <= s[i..] {
        var i :| 0 <= i <= |s| && sub <= s[i..];
        assert i != 0 by { assert s[0..] == s; }
        assert s[1..][i - 1..] == s[i..];
      }
    }
  }

  /** An occurrence at a known index is found. */
  lemma ContainsAt(s: string, sub: string, i: nat)
    requires i + |sub| <= |s| && s[i..i + |sub|] == sub
    ensures Contains(s, sub)
  {
    ContainsIff(s, sub);
    assert sub <= s[i..];
  }

  // ---------------------------------------------------------------------------
  // atoi and its inverse, printf("%ld")

  /** The characters C's `isspace` accepts in the "C" locale. */
  predicate IsSpace(c: char) {
    c == ' ' || c == '\t' || c == '\n' || c == '\U{0B}' || c == '\U{0C}' || c == '\r'
  }

  predicate IsDigit(c: char) {
    '0' <= c <= '9'
  }

  predicate AllDigits(s: string) {
    forall i :: 0 <= i < |s| ==> IsDigit(s[i])
  }

  function DigitValue(c: char): (d: nat)
    requires IsDigit(c)
    ensures d < 10
  {
    c as int - '0' as int
  }

  function DigitChar(d: nat): (c: char)
    requires d < 10
    ensures IsDigit(c) && DigitValue(c) == d
  {
    ('0' as int + d) as char
  }

  /** `s` without its leading white space. */
  function SkipSpace(s: string): (r: string)
    ensures r <= s || (|r| <= |s| && r == s[|s| - |r|..])
    ensures |r| > 0 ==> !IsSpace(r[0])
  {
    if |s| > 0 && IsSpace(s[0]) then SkipSpace(s[1..]) else s
  }

  /** The longest prefix of `s` made of decimal digits. */
  function LeadingDigits(s: string): (r: string)
    ensures r <= s && AllDigits(r)
    ensures |r| < |s| ==> !IsDigit(s[|r|])
  {
    if |s| > 0 && IsDigit(s[0]) then [s[0]] + LeadingDigits(s[1..]) else []
  }

  /** The value of a string of digits read left to right, most significant first. */
  function DigitsValue(ds: string): nat
    requires AllDigits(ds)
  {
    if ds == [] then 0 else DigitsValue(ds[..|ds| - 1]) * 10 + DigitValue(ds[|ds| - 1])
  }

  /** C's `atoi`: skip white space, read an optional sign, then the digits up to the
      first non-digit; a string with no digits reads as 0. */
  function Atoi(s: string): (r: int)
    ensures r < 0 ==> |SkipSpace(s)| > 0 && SkipSpace(s)[0] == '-'
  {
    var u := SkipSpace(s);
    if |u| > 0 && u[0] == '-' then -(DigitsValue(LeadingDigits(u[1..])) as int)
    else if |u| > 0 && u[0] == '+' then DigitsValue(LeadingDigits(u[1..]))
    else DigitsValue(LeadingDigits(u))
  }

  /** The text the grammar's `number` rule accepts: `-?[0-9]+`. */
  predicate IsNumeral(s: string) {
    if |s| > 0 && s[0] == '-' then |s| > 1 && AllDigits(s[1..])
    else |s| > 0 && AllDigits(s)
  }

  /** The decimal digits of a natural number, no leading zeros. */
  function NatString(n: nat): (s: string)
    ensures |s| > 0 && AllDigits(s)
  {
    if n < 10 then [DigitChar(n)] else NatString(n / 10) + [DigitChar(n % 10)]
  }

  /** The rendering of `printf("%ld", n)`. */
  function DecimalString(n: int): string {
    if n < 0 then "-" + NatString(-n) else NatString(n)
  }

  lemma {:induction false} NatStringValue(n: nat)
    ensures DigitsValue(NatString(n)) == n
  {
    var s := NatString(n);
    if n >= 10 {
      NatStringValue(n / 10);
      assert s[..|s| - 1] == NatString(n / 10);
    }
  }

  lemma {:induction false} LeadingDigitsOfDigits(s: string)
    requires AllDigits(s)
    ensures LeadingDigits(s) == s
  {
    if |s| > 0 {
      LeadingDigitsOfDigits(s[1..]);
    }
  }

  /** Every integer has a rendering the grammar's `number` rule accepts,
      and `atoi` reads that rendering back as the same integer. */
  lemma AtoiDecimalString(n: int)
    ensures IsNumeral(DecimalString(n))
    ensures Atoi(DecimalString(n)) == n
  {
    var s := DecimalString(n);
    var m := if n < 0 then -n else n;
    NatStringValue(m);
    LeadingDigitsOfDigits(NatString(m));
    if n < 0 {
      assert s[1..] == NatString(m);
      assert !IsSpace(s[0]);
    } else {
      assert !IsSpace(s[0]) by { assert IsDigit(s[0]); }
    }
    assert SkipSpace(s) == s;
  }

  /** `atoi` reads every text the grammar's `number` rule accepts as the value of
      its digits, negated after a leading minus sign. */
  lemma AtoiNumeral(s: string)
    requires IsNumeral(s)
    ensures Atoi(s) == if s[0] == '-' then -(DigitsValue(s[1..]) as int) else DigitsValue(s)
  {
    assert !IsSpace(s[0]);
    assert SkipSpace(s) == s;
    if s[0] == '-' {
      LeadingDigitsOfDigits(s[1..]);
    } else {
      LeadingDigitsOfDigits(s);
    }
  }

  /** A leading zero does not change the value of a string of digits, so "007"
      reads as 7. */
  lemma {:induction false} LeadingZero(ds: string)
    requires AllDigits(ds)
    ensures AllDigits("0" + ds) && DigitsValue("0" + ds) == DigitsValue(ds)
  {
    var zs := "0" + ds;
    assert AllDigits(zs) by {
      forall i | 0 <= i < |zs| ensures IsDigit(zs[i]) {
        if i > 0 { assert zs[i] == ds[i - 1]; }
      }
    }
    if ds != [] {
      var init := ds[..|ds| - 1];
      assert zs[..|zs| - 1] == "0" + init;
      assert zs[|zs| - 1] == ds[|ds| - 1];
      LeadingZero(init);
    }
  }

  // ---------------------------------------------------------------------------
  // C integer division: the quotient is truncated toward zero (C99 6.5.5)

  /** C's `x / y` on integers. */
  function Quot(x: int, y: int): (q: int)
    requires y != 0
    ensures x >= 0 ==> 0 <= q * y <= x && x - q * y < Abs(y)
    ensures x < 0 ==> x <= q * y <= 0 && q * y - x < Abs(y)
  {
    var m := Abs(x) / Abs(y);
    var q := if (x < 0) == (y < 0) then m else -m;
    QuotProduct(x, y, m, q);
    q
  }

  /** The product of the truncated quotient and the divisor is the multiple of
      `|y|` just below `|x|`, carrying the sign of `x`. */
  lemma QuotProduct(x: int, y: int, m: int, q: int)
    requires y != 0 && m == Abs(x) / Abs(y)
    requires q == if (x < 0) == (y < 0) then m else -m
    ensures x >= 0 ==> 0 <= q * y <= x && x - q * y < Abs(y)
    ensures x < 0 ==> x <= q * y <= 0 && q * y - x < Abs(y)
  {
    var p := m * Abs(y);
    assert 0 <= p <= Abs(x) < p + Abs(y);
    if x >= 0 && y > 0 {
      assert q * y == p;
    } else if x >= 0 {
      assert q * y == (-m) * y == m * (-y) == p;
    } else if y < 0 {
      assert q * y == m * y == -(m * (-y)) == -p;
    } else {
      assert q * y == (-m) * y == -(m * y) == -p;
    }
  }

  /** C's `x % y` on integers: what `x / y` leaves over. */
  function Rem(x: int, y: int): (r: int)
    requires y != 0
    ensures Quot(x, y) * y + r == x
    ensures Abs(r) < Abs(y)
    ensures x >= 0 ==> r >= 0
    ensures x < 0 ==> r <= 0
  {
    x - Quot(x, y) * y
  }

  lemma AbsMul(a: int, b: int)
    ensures Abs(a * b) == Abs(a) * Abs(b)
  {
    if a < 0 && b < 0 {
      assert a * b == (-a) * (-b);
    } else if a < 0 {
      assert -(a * b) == (-a) * b;
    } else if b < 0 {
      assert -(a * b) == a * (-b);
    }
  }

  lemma MulAtLeast(a: nat, b: nat)
    requires a >= 1
    ensures a * b >= b
  {
    assert a * b == (a - 1) * b + b;
  }

  /** On non-negative operands C's operators agree with Dafny's. */
  lemma QuotRemNonNegative(x: int, y: int)
    requires x >= 0 && y > 0
    ensures Quot(x, y) == x / y && Rem(x, y) == x % y
  {
  }

  /** The quotient is the only integer that the truncation rule allows: this is
      what makes `Quot(x * y, y) == x`. */
  lemma {:induction false} QuotUnique(x: int, y: int, q: int)
    requires y != 0
    requires x >= 0 ==> 0 <= q * y <= x && x - q * y < Abs(y)
    requires x < 0 ==> x <= q * y <= 0 && q * y - x < Abs(y)
    ensures q == Quot(x, y)
  {
    var p := Quot(x, y);
    var qy, py := q * y, p * y;
    assert qy - py < Abs(y) && py - qy < Abs(y);
    assert qy - py == (q - p) * y;
    NoSmallMultiple(q - p, y, qy - py);
  }

  /** A multiple `d * y` smaller in magnitude than `y` is the zero multiple. */
  lemma NoSmallMultiple(d: int, y: int, e: int)
    requires y != 0 && e == d * y
    requires e < Abs(y) && -e < Abs(y)
    ensures d == 0
  {
    AbsMul(d, y);
    if d != 0 {
      MulAtLeast(Abs(d), Abs(y));
    }
  }

  // ---------------------------------------------------------------------------
  // (long) pow(x, y)

  /** `x` to the natural power `n`. */
  function Pow(x: int, n: nat): (r: int)
    ensures x == 1 ==> r == 1
    ensures x == -1 ==> r == (if n % 2 == 0 then 1 else -1)
    ensures x == 0 && n > 0 ==> r == 0
    ensures Abs(x) >= 2 && n > 0 ==> Abs(r) >= 2
  {
    if n == 0 then 1
    else
      var p := Pow(x, n - 1);
      assert Abs(x * p) == Abs(x) * Abs(p) by { AbsMul(x, p); }
      assert Abs(x) >= 2 && n > 1 ==> Abs(x) * Abs(p) >= 2 * 2;
      x * p
  }

  /** `(long) pow(x, y)` for integral `x` and `y`: a negative exponent gives the
      real number `1 / x^-y`, which the cast truncates toward zero. `pow(0, y)`
      with `y < 0` is a pole (the cast of an infinity is undefined). */
  function PowCast(x: int, y: int): (r: int)
    requires y < 0 ==> x != 0
    ensures y >= 0 ==> r == Pow(x, y)
    ensures y < 0 && Abs(x) >= 2 ==> r == 0
    ensures y < 0 && x == 1 ==> r == 1
    ensures y < 0 && x == -1 ==> r == (if y % 2 == 0 then 1 else -1)
  {
    if y >= 0 then Pow(x, y)
    else
      assert (-y) % 2 == 0 <==> y % 2 == 0;
      Quot(1, Pow(x, -y))
  }
}
