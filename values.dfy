/** The runtime value of the interpreter, `struct lval` of lval.h, with the
    constructors of lval.c and the operations lval.h documents on a value's
    ordered list of child cells. */
module Values {

  /** The tag of a value: the enum that `lval.type` takes its values from. */
  datatype LvalType = LvalNum | LvalErr | LvalSym | LvalSexpr | LvalQexpr | LvalFun

  /** The integer C gives each enumerator: `LVAL_NUM` is 0, up to `LVAL_FUN`, 5. */
  function TypeCode(t: LvalType): (c: nat)
    ensures c < 6
  {
    match t
    case LvalNum => 0
    case LvalErr => 1
    case LvalSym => 2
    case LvalSexpr => 3
    case LvalQexpr => 4
    case LvalFun => 5
  }

  /** The enumerator an `int` in `lval.type` stands for. */
  function TypeOfCode(c: nat): (t: LvalType)
    requires c < 6
    ensures TypeCode(t) == c
  {
    if c == 0 then LvalNum
    else if c == 1 then LvalErr
    else if c == 2 then LvalSym
    else if c == 3 then LvalSexpr
    else if c == 4 then LvalQexpr
    else LvalFun
  }

  /** Distinct tags have distinct codes: the code of a tag leads back to it. */
  lemma TypeCodeRoundTrip(t: LvalType)
    ensures TypeOfCode(TypeCode(t)) == t
  {
  }

  /** `s` with its element at index `i` removed and the later ones moved one
      place down to close the gap. */
  function Without<T>(s: seq<T>, i: nat): (r: seq<T>)
    requires i < |s|
    ensures |r| == |s| - 1
    ensures forall j :: 0 <= j < i ==> r[j] == s[j]
    ensures forall j :: i <= j < |r| ==> r[j] == s[j + 1]
  {
    s[..i] + s[i + 1..]
  }

  /** Removing an element loses nothing else: putting it back where it was
      restores the list, and the removed element and the rest together hold
      exactly the original elements. */
  lemma WithoutRestores<T>(s: seq<T>, i: nat)
    requires i < |s|
    ensures Without(s, i)[..i] + [s[i]] + Without(s, i)[i..] == s
    ensures multiset(Without(s, i)) + multiset{s[i]} == multiset(s)
  {
    var r := Without(s, i);
    assert r[..i] == s[..i];
    assert r[i..] == s[i + 1..];
    assert s == s[..i] + [s[i]] + s[i + 1..];
  }

  /** The lists of `ls`, one after another, in order. */
  function Flatten<T>(ls: seq<seq<T>>): seq<T> {
    if ls == [] then [] else ls[0] + Flatten(ls[1..])
  }

  /** Flattening one more list appends it at the end. */
  lemma {:induction false} FlattenSnoc<T>(ls: seq<seq<T>>, l: seq<T>)
    ensures Flatten(ls + [l]) == Flatten(ls) + l
  {
    if ls != [] {
      assert (ls + [l])[1..] == ls[1..] + [l];
      FlattenSnoc(ls[1..], l);
    } else {
      assert [l][1..] == [];
    }
  }

  /** Flattening keeps every element: the length is the sum of the lengths. */
  lemma {:induction false} FlattenLength<T>(ls: seq<seq<T>>)
    ensures |Flatten(ls)| == SumLengths(ls)
  {
    if ls != [] {
      FlattenLength(ls[1..]);
    }
  }

  function SumLengths<T>(ls: seq<seq<T>>): nat {
    if ls == [] then 0 else |ls[0]| + SumLengths(ls[1..])
  }

  /** `struct lval`. `cell` is the array of pointers to the child values and
      `count` its length. The function pointer `fun` is not modelled. `freed`
      records that `lval_del` has released the value. */
  class Lval {
    var kind: LvalType
    var num: int
    var err: string
    var sym: string
    var count: int
    var cell: seq<Lval>
    ghost var freed: bool

    /** A live value whose `count` is the number of its cells, which is never
        negative. */
    ghost predicate Valid()
      reads this
      ensures Valid() ==> count >= 0
    {
      !freed && count == |cell|
    }

    /** `lval_num`: a number value holding `n`; the other fields are left
        uninitialised. */
    constructor Num(n: int)
      ensures kind == LvalNum && num == n && !freed
    {
      kind := LvalNum;
      num := n;
      freed := false;
    }

    /** `lval_err`: an error value carrying the message `msg`; the other fields
        are left uninitialised. */
    constructor Err(msg: string)
      ensures kind == LvalErr && err == msg && !freed
    {
      kind := LvalErr;
      err := msg;
      freed := false;
    }

    /** `lval_sym`: a symbol value. */
    constructor Sym(s: string)
      ensures kind == LvalSym && sym == s && !freed
    {
      kind := LvalSym;
      sym := s;
      freed := false;
    }

    /** `lval_sexpr`: an empty S-expression. */
    constructor Sexpr()
      ensures kind == LvalSexpr && Valid() && cell == []
    {
      kind := LvalSexpr;
      count := 0;
      cell := [];
      freed := false;
    }

    /** `lval_qexpr`: an empty Q-expression. */
    constructor Qexpr()
      ensures kind == LvalQexpr && Valid() && cell == []
    {
      kind := LvalQexpr;
      count := 0;
      cell := [];
      freed := false;
    }

    /** `lval_del`, as far as it is modelled: the value is released. */
    method Del()
      modifies this`freed
      ensures freed
    {
      freed := true;
    }

    /** `lval_add`: `y` becomes the last cell of this value, which is returned. */
    method Add(y: Lval) returns (x: Lval)
      requires Valid()
      modifies this`cell, this`count
      ensures x == this && Valid()
      ensures cell == old(cell) + [y] && count == old(count) + 1
    {
      cell := cell + [y];
      count := count + 1;
      x := this;
    }

    /** `lval_pop`: returns the cell at index `i`; the cells after it move one
        place down and the count drops by one. */
    method Pop(i: int) returns (v: Lval)
      requires Valid() && 0 <= i < count
      modifies this`cell, this`count
      ensures Valid() && v == old(cell[i])
      ensures cell == Without(old(cell), i) && count == old(count) - 1
    {
      v := cell[i];
      cell := Without(cell, i);
      count := count - 1;
    }

    /** `lval_take`: returns the cell at index `i` and releases this value
        together with the cells it still holds. */
    method Take(i: int) returns (v: Lval)
      requires Valid() && 0 <= i < count
      modifies this`cell, this`count, this`freed, cell`freed
      ensures v == old(cell[i]) && cell == Without(old(cell), i) && freed
      ensures forall c :: c in cell && c != v ==> c.freed
      ensures v != this ==> v.freed == old(v.freed)
    {
      v := Pop(i);
      var rest := cell;
      for j := 0 to |rest|
        invariant cell == rest
        invariant forall k :: 0 <= k < j && rest[k] != v ==> rest[k].freed
        invariant v.freed == old(v.freed)
      {
        if rest[j] != v {
          rest[j].Del();
        }
      }
      Del();
    }

    /** `lval_join`: all cells of `y`, in order, follow the cells of this value,
        which is returned. */
    method Join(y: Lval) returns (x: Lval)
      requires Valid() && y.Valid()
      modifies this`cell, this`count
      ensures x == this && Valid()
      ensures cell == old(cell) + old(y.cell)
    {
      cell := cell + y.cell;
      count := count + y.count;
      x := this;
    }
  }

  /** `lval_take` on the list `(1 2)`: the first element comes back live, and the
      list and the element left in it are released. */
  method TakeExample() {
    var one := new Lval.Num(1);
    var two := new Lval.Num(2);
    var q := new Lval.Sexpr();
    q := q.Add(one);
    q := q.Add(two);
    var w := q.Take(0);
    assert w == one && !w.freed;
    assert q.cell == [two] && two.freed && q.freed;
  }

  /** `LASSERT(args, condition, error)`: when the condition fails, `args` is
      released and an error value carrying `error` comes back for the caller to
      return; when it holds, nothing happens and null comes back. */
  method Lassert(args: Lval, condition: bool, error: string) returns (failure: Lval?)
    modifies args`freed
    ensures condition ==> failure == null && args.freed == old(args.freed)
    ensures !condition ==> failure != null && fresh(failure) && args.freed
    ensures !condition ==> failure.kind == LvalErr && failure.err == error
  {
    if condition {
      return null;
    }
    args.Del();
    failure := new Lval.Err(error);
  }
}
