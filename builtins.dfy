/** The list builtins lval.h documents: `head`, `tail`, `list` and `join`.
    Each takes ownership of the value it is given and returns the result in
    that same storage where the documentation says so. */
module Builtins {
  import opened Values

  /** The cell lists of the values `vs`, in order. */
  ghost function CellsOf(vs: seq<Lval>): (ls: seq<seq<Lval>>)
    reads set v | v in vs
    ensures |ls| == |vs|
    ensures forall j :: 0 <= j < |vs| ==> ls[j] == vs[j].cell
  {
    if vs == [] then [] else [vs[0].cell] + CellsOf(vs[1..])
  }

  /** `builtin_head`: the Q-expression keeps only its first element. */
  method BuiltinHead(v: Lval) returns (r: Lval)
    requires v.Valid() && v.kind == LvalQexpr && v.count > 0
    modifies v`cell, v`count
    ensures r == v && r.Valid() && r.kind == LvalQexpr
    ensures r.cell == [old(v.cell[0])]
  {
    ghost var first := v.cell[0];
    while v.count > 1
      invariant v.Valid() && v.count >= 1 && v.cell[0] == first
      decreases v.count
    {
      var dropped := v.Pop(1);
    }
    r := v;
  }

  /** `builtin_tail`: the Q-expression loses its first element and keeps the
      rest in order. */
  method BuiltinTail(v: Lval) returns (r: Lval)
    requires v.Valid() && v.kind == LvalQexpr && v.count > 0
    modifies v`cell, v`count
    ensures r == v && r.Valid() && r.kind == LvalQexpr
    ensures r.cell == old(v.cell[1..])
  {
    var dropped := v.Pop(0);
    r := v;
  }

  /** `builtin_list`: the S-expression becomes a Q-expression with the same cells. */
  method BuiltinList(v: Lval) returns (r: Lval)
    requires v.Valid() && v.kind == LvalSexpr
    modifies v`kind
    ensures r == v && r.Valid() && r.kind == LvalQexpr
    ensures r.cell == old(v.cell)
  {
    v.kind := LvalQexpr;
    r := v;
  }

  /** `builtin_join`: the cells of all argument Q-expressions, in argument order,
      gathered into the first argument, which is returned. */
  method BuiltinJoin(args: Lval) returns (r: Lval)
    requires args.Valid() && args.count > 0
    requires forall j :: 0 <= j < |args.cell| ==>
               args.cell[j].Valid() && args.cell[j].kind == LvalQexpr
    requires args !in args.cell && args.cell[0] !in args.cell[1..]
    modifies args`cell, args`count, args.cell[..1]`cell, args.cell[..1]`count
    ensures r == old(args.cell[0]) && r.Valid() && r.kind == LvalQexpr
    ensures r.cell == Flatten(old(CellsOf(args.cell)))
    ensures args.Valid() && args.cell == [] && args.kind == old(args.kind)
  {
    ghost var vs := args.cell;
    ghost var lists: seq<seq<Lval>> := CellsOf(vs);
    var x := args.Pop(0);
    ghost var k := 1;
    ghost var done := [lists[0]];
    assert Flatten(done) == lists[0] + Flatten([]);
    while args.count > 0
      invariant args.Valid() && x.Valid() && 1 <= k <= |vs|
      invariant args.cell == vs[k..] && done == lists[..k]
      invariant x == vs[0] && x.kind == LvalQexpr && args.kind == old(args.kind)
      invariant x.cell == Flatten(done)
      invariant forall j :: 1 <= j < |vs| ==> vs[j] != x && vs[j] != args
      invariant forall j :: k <= j < |vs| ==> vs[j].cell == lists[j] && vs[j].Valid()
      decreases args.count
    {
      var y := args.Pop(0);
      assert y == vs[k] && y.cell == lists[k] && y.Valid();
      x := x.Join(y);
      FlattenSnoc(done, lists[k]);
      done := done + [lists[k]];
      k := k + 1;
    }
    assert done == lists;
    r := x;
  }

  /** `tail` then `head` on the Q-expression `{1 2 3}`. */
  method HeadTailExample() {
    var one := new Lval.Num(1);
    var two := new Lval.Num(2);
    var three := new Lval.Num(3);
    var q := new Lval.Qexpr();
    q := q.Add(one);
    q := q.Add(two);
    q := q.Add(three);
    var t := BuiltinTail(q);
    assert t.cell == [two, three];
    var h := BuiltinHead(t);
    assert h.cell == [two];
  }
}
