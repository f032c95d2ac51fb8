/** `expr_eliminate_dups`: a tree is compared with itself, operand by operand, and rewritten in place.
    A slot (`struct expr **`) of the tree is the path of turns that leads to it, so two slots are the
    same pointer exactly when the paths are equal, and a write through one slot is seen by the other. */
module Duplicates {
  import opened Common
  import opened Expressions
  import opened Transformation
  import opened Equivalence
  import opened Joining

  datatype Turn = L | R

  type Path = seq<Turn>

  /** Every node above `p` is an `op` node. */
  predicate InSpine(op: Op, t: Expr, p: Path) {
    p != [] ==> IsOp(op, t) && InSpine(op, if p[0] == L then t.left else t.right, p[1..])
  }

  function At(op: Op, t: Expr, p: Path): Expr
    requires InSpine(op, t, p)
  {
    if p == [] then t else At(op, if p[0] == L then t.left else t.right, p[1..])
  }

  /** Assignment through the slot `p`. */
  function Put(op: Op, t: Expr, p: Path, x: Expr): Expr
    requires InSpine(op, t, p)
  {
    if p == [] then x
    else if p[0] == L then Bin(op, Put(op, t.left, p[1..], x), t.right)
    else Bin(op, t.left, Put(op, t.right, p[1..], x))
  }

  /** Number of nodes of the maximal `op` tree at the root, operands included. */
  function Spine(op: Op, t: Expr): nat {
    if IsOp(op, t) then 1 + Spine(op, t.left) + Spine(op, t.right) else 0
  }

  /** The `op` trees at the two roots have the same shape. */
  predicate SameSpine(op: Op, t: Expr, u: Expr) {
    if IsOp(op, t) then IsOp(op, u) && SameSpine(op, t.left, u.left) && SameSpine(op, t.right, u.right)
    else !IsOp(op, u)
  }

  // ----- slots -----

  lemma {:induction false} SlotBelow(op: Op, t: Expr, p: Path, d: Turn)
    requires InSpine(op, t, p) && IsOp(op, At(op, t, p))
    ensures InSpine(op, t, p + [d])
    ensures At(op, t, p + [d]) == if d == L then At(op, t, p).left else At(op, t, p).right
  {
    if p != [] {
      SlotBelow(op, if p[0] == L then t.left else t.right, p[1..], d);
      assert (p + [d])[1..] == p[1..] + [d];
    } else {
      assert (p + [d])[1..] == [];
    }
  }

  lemma {:induction false} SlotSameSpine(op: Op, t: Expr, u: Expr, p: Path)
    requires InSpine(op, t, p) && SameSpine(op, t, u)
    ensures InSpine(op, u, p) && SameSpine(op, At(op, t, p), At(op, u, p))
  {
    if p != [] {
      SlotSameSpine(op, if p[0] == L then t.left else t.right, if p[0] == L then u.left else u.right, p[1..]);
    }
  }

  lemma {:induction false} SameSpineTransitive(op: Op, t: Expr, u: Expr, v: Expr)
    requires SameSpine(op, t, u) && SameSpine(op, u, v)
    ensures SameSpine(op, t, v)
    ensures Spine(op, t) == Spine(op, u)
  {
    if IsOp(op, t) {
      SameSpineTransitive(op, t.left, u.left, v.left);
      SameSpineTransitive(op, t.right, u.right, v.right);
    }
  }

  lemma {:induction false} SameSpineReflexive(op: Op, t: Expr)
    ensures SameSpine(op, t, t)
  {
    if IsOp(op, t) { SameSpineReflexive(op, t.left); SameSpineReflexive(op, t.right); }
  }

  /** What a write through a slot does to the tree. */
  lemma {:induction false} PutShape(op: Op, t: Expr, p: Path, x: Expr)
    requires InSpine(op, t, p)
    ensures InSpine(op, Put(op, t, p, x), p) && At(op, Put(op, t, p, x), p) == x
    ensures Size(Put(op, t, p, x)) == Size(t) - Size(At(op, t, p)) + Size(x)
    ensures SameSpine(op, At(op, t, p), x) ==> SameSpine(op, t, Put(op, t, p, x))
    ensures p != [] && IsYesNo(x) ==> HasConstOperand(Put(op, t, p, x))
    ensures HasConstOperand(x) ==> HasConstOperand(Put(op, t, p, x))
    ensures Nnf(t) ==> Nnf(At(op, t, p)) && (Nnf(x) ==> Nnf(Put(op, t, p, x)))
    ensures x == At(op, t, p) ==> Put(op, t, p, x) == t
    ensures p != [] ==> Size(At(op, t, p)) < Size(t)
  {
    if p != [] {
      PutShape(op, if p[0] == L then t.left else t.right, p[1..], x);
      SameSpineReflexive(op, t.left);
      SameSpineReflexive(op, t.right);
      SizePositive(t.left);
      SizePositive(t.right);
    }
  }

  /** Writing through one operand slot leaves every other operand slot alone. */
  lemma {:induction false} PutElsewhere(op: Op, t: Expr, p: Path, x: Expr, q: Path)
    requires InSpine(op, t, p) && InSpine(op, t, q) && p != q
    requires !IsOp(op, At(op, t, p)) && !IsOp(op, At(op, t, q))
    ensures InSpine(op, Put(op, t, p, x), q)
    ensures At(op, Put(op, t, p, x), q) == At(op, t, q)
  {
    if p != [] && q != [] && p[0] == q[0] {
      PutElsewhere(op, if p[0] == L then t.left else t.right, p[1..], x, q[1..]);
    }
  }

  /** The value of the tree, as a function of what one slot holds. */
  lemma {:induction false} PutValue(op: Op, t: Expr, p: Path, x: Expr, env: Assignment)
    requires WellTyped(env) && InSpine(op, t, p)
    ensures Value(Put(op, t, p, x), env)
         == Apply(op, Value(Put(op, t, p, Sym(Neutral(op))), env), Value(x, env))
  {
    if p != [] {
      var l, r, n, v := Value(t.left, env), Value(t.right, env), Sym(Neutral(op)), Value(x, env);
      if p[0] == L {
        PutValue(op, t.left, p[1..], x, env);
        ApplySwap(op, Value(Put(op, t.left, p[1..], n), env), v, r);
      } else {
        PutValue(op, t.right, p[1..], x, env);
        ApplyAssoc(op, l, Value(Put(op, t.right, p[1..], n), env), v);
      }
    }
  }

  // ----- expr_eliminate_dups1 -----

  datatype Pass = Pass(tree: Expr, count: nat)

  /** What every pass guarantees about its result: `count` is `trans_count`. */
  ghost predicate PassOk(op: Op, t: Expr, count: nat, r: Pass) {
    && SameSpine(op, t, r.tree)
    && Size(r.tree) <= Size(t)
    && count <= r.count
    && (r.count == count ==> r.tree == t)
    && (r.count > count ==> HasConstOperand(r.tree))
    && (Nnf(t) ==> Nnf(r.tree))
  }

  lemma PassThen(op: Op, t: Expr, count: nat, r: Pass, s: Pass)
    requires PassOk(op, t, count, r) && PassOk(op, r.tree, r.count, s)
    ensures PassOk(op, t, count, s)
  {
    SameSpineTransitive(op, t, r.tree, s.tree);
  }

  lemma PassNothing(op: Op, t: Expr, count: nat)
    ensures PassOk(op, t, count, Pass(t, count))
  {
    SameSpineReflexive(op, t);
  }

  /** A nested pass over one operand is a pass over the whole tree. */
  lemma PassNested(op: Op, t: Expr, p: Path, count: nat, r: Pass)
    requires InSpine(op, t, p) && At(op, t, p).Bin? && At(op, t, p).op != op
    requires PassOk(At(op, t, p).op, At(op, t, p), count, r)
    ensures PassOk(op, t, count, Pass(Put(op, t, p, r.tree), r.count))
  {
    PutShape(op, t, p, r.tree);
  }

  /** The spine below a slot stays the same through a pass. */
  lemma SlotAfter(op: Op, t: Expr, u: Expr, p: Path)
    requires InSpine(op, t, p) && SameSpine(op, t, u)
    ensures InSpine(op, u, p) && IsOp(op, At(op, u, p)) == IsOp(op, At(op, t, p))
    ensures Spine(op, At(op, u, p)) == Spine(op, At(op, t, p))
  {
    SlotSameSpine(op, t, u, p);
    SameSpineTransitive(op, At(op, t, p), At(op, u, p), At(op, u, p)) by {
      SameSpineReflexive(op, At(op, u, p));
    }
  }

  /** Two different operands of the tree are merged: the first slot gets the neutral constant, the second the join. */
  function MergeAt(op: Op, t: Expr, p1: Path, p2: Path, count: nat): (r: Pass)
    requires InSpine(op, t, p1) && InSpine(op, t, p2) && p1 != p2
    requires !IsOp(op, At(op, t, p1)) && !IsOp(op, At(op, t, p2))
  {
    PutElsewhere(op, t, p1, Sym(Neutral(op)), p2);
    match Join(op, At(op, t, p1), At(op, t, p2))
    case None => Pass(t, count)
    case Some(x) => Pass(Put(op, Put(op, t, p1, Sym(Neutral(op))), p2, x), count + 1)
  }

  lemma MergeOk(op: Op, t: Expr, p1: Path, p2: Path, count: nat)
    requires InSpine(op, t, p1) && InSpine(op, t, p2) && p1 != p2 && p1 != []
    requires !IsOp(op, At(op, t, p1)) && !IsOp(op, At(op, t, p2))
    ensures PassOk(op, t, count, MergeAt(op, t, p1, p2, count))
  {
    var e1, e2 := At(op, t, p1), At(op, t, p2);
    var join := Join(op, e1, e2);
    if join.None? {
      PassNothing(op, t, count);
    } else {
      var x, neutral := join.value, Sym(Neutral(op));
      JoinShape(op, e1, e2);
      SizePositive(e2);
      PutElsewhere(op, t, p1, neutral, p2);
      PutShape(op, t, p1, neutral);
      PutShape(op, t, p1, e1);
      var u := Put(op, t, p1, neutral);
      PutShape(op, u, p2, x);
      PutElsewhere(op, u, p2, x, p1);
      var v := Put(op, u, p2, x);
      SameSpineTransitive(op, t, u, v);
      PutShape(op, v, p1, neutral);
    }
  }

  lemma MergeValue(op: Op, t: Expr, p1: Path, p2: Path, count: nat, env: Assignment)
    requires WellTyped(env)
    requires InSpine(op, t, p1) && InSpine(op, t, p2) && p1 != p2
    requires !IsOp(op, At(op, t, p1)) && !IsOp(op, At(op, t, p2))
    ensures Value(MergeAt(op, t, p1, p2, count).tree, env) == Value(t, env)
  {
    var e1, e2 := At(op, t, p1), At(op, t, p2);
    var join := Join(op, e1, e2);
    if join.Some? {
      var neutral := Sym(Neutral(op));
      var u := Put(op, t, p1, neutral);
      PutShape(op, t, p1, e1);
      PutElsewhere(op, t, p1, neutral, p2);
      PutShape(op, u, p2, e2);
      PutValue(op, t, p1, e1, env);
      PutValue(op, u, p2, e2, env);
      PutValue(op, u, p2, join.value, env);
      JoinValue(op, e1, e2, env);
      var w := Value(Put(op, u, p2, neutral), env);
      ApplyAssoc(op, w, Value(e1, env), Value(e2, env));
      ApplyAssoc(op, w, Value(e2, env), Value(e1, env));
    }
  }

  /** `expr_eliminate_dups1` through the slots `p1` and `p2` of one tree. */
  function Dups1(op: Op, t: Expr, p1: Path, p2: Path, count: nat): (r: Pass)
    requires IsOp(op, t) && InSpine(op, t, p1) && InSpine(op, t, p2)
    ensures PassOk(op, t, count, r)
    decreases Size(t), Spine(op, At(op, t, p1)) + Spine(op, At(op, t, p2)), 1
  {
    var e1, e2 := At(op, t, p1), At(op, t, p2);
    if IsOp(op, e1) then
      SlotBelow(op, t, p1, L); SlotBelow(op, t, p1, R);
      var a := Dups1(op, t, p1 + [L], p2, count);
      SlotAfter(op, t, a.tree, p1 + [R]); SlotAfter(op, t, a.tree, p2);
      var b := Dups1(op, a.tree, p1 + [R], p2, a.count);
      PassThen(op, t, count, a, b);
      b
    else if IsOp(op, e2) then
      SlotBelow(op, t, p2, L); SlotBelow(op, t, p2, R);
      var a := Dups1(op, t, p1, p2 + [L], count);
      SlotAfter(op, t, a.tree, p2 + [R]); SlotAfter(op, t, a.tree, p1);
      var b := Dups1(op, a.tree, p1, p2 + [R], a.count);
      PassThen(op, t, count, a, b);
      b
    else if p1 == p2 then
      PassNothing(op, t, count);
      Pass(t, count)
    else
      var a := Nested1(op, t, p1, count);
      SlotAfter(op, t, a.tree, p1); SlotAfter(op, t, a.tree, p2);
      MergeOk(op, a.tree, p1, p2, a.count);
      var b := MergeAt(op, a.tree, p1, p2, a.count);
      PassThen(op, t, count, a, b);
      b
  }

  /** The operand `p` of the tree after the nested pass over it. */
  function Nested1(op: Op, t: Expr, p: Path, count: nat): (r: Pass)
    requires IsOp(op, t) && InSpine(op, t, p) && !IsOp(op, At(op, t, p))
    ensures PassOk(op, t, count, r)
    decreases Size(t), 0, 0
  {
    var e := At(op, t, p);
    PutShape(op, t, p, e);
    if e.Bin? then
      var n := Dups1(e.op, e, [], [], count);
      PassNested(op, t, p, count, n);
      Pass(Put(op, t, p, n.tree), n.count)
    else
      PassNothing(op, t, count);
      Pass(t, count)
  }

  /** The merging half of the pass keeps the value exactly, although it rewrites the tree it is reading. */
  lemma {:induction false} Dups1Value(op: Op, t: Expr, p1: Path, p2: Path, count: nat, env: Assignment)
    requires IsOp(op, t) && InSpine(op, t, p1) && InSpine(op, t, p2)
    requires WellTyped(env)
    ensures Value(Dups1(op, t, p1, p2, count).tree, env) == Value(t, env)
    decreases Size(t), Spine(op, At(op, t, p1)) + Spine(op, At(op, t, p2))
  {
    var e1, e2 := At(op, t, p1), At(op, t, p2);
    if IsOp(op, e1) {
      SlotBelow(op, t, p1, L); SlotBelow(op, t, p1, R);
      var a := Dups1(op, t, p1 + [L], p2, count);
      SlotAfter(op, t, a.tree, p1 + [R]); SlotAfter(op, t, a.tree, p2);
      Dups1Value(op, t, p1 + [L], p2, count, env);
      Dups1Value(op, a.tree, p1 + [R], p2, a.count, env);
    } else if IsOp(op, e2) {
      SlotBelow(op, t, p2, L); SlotBelow(op, t, p2, R);
      var a := Dups1(op, t, p1, p2 + [L], count);
      SlotAfter(op, t, a.tree, p2 + [R]); SlotAfter(op, t, a.tree, p1);
      Dups1Value(op, t, p1, p2 + [L], count, env);
      Dups1Value(op, a.tree, p1, p2 + [R], a.count, env);
    } else if p1 != p2 {
      PutShape(op, t, p1, e1);
      var a := Nested1(op, t, p1, count);
      if e1.Bin? {
        Dups1Value(e1.op, e1, [], [], count, env);
        PutValue(op, t, p1, e1, env);
        PutValue(op, t, p1, Dups1(e1.op, e1, [], [], count).tree, env);
      }
      SlotAfter(op, t, a.tree, p1); SlotAfter(op, t, a.tree, p2);
      MergeValue(op, a.tree, p1, p2, a.count, env);
    }
  }

  // ----- expr_eliminate_dups2 -----

  /** `e1` is contradicted (in an AND) or completed (in an OR) by `e2`: every operand of NOT e1 occurs in e2. */
  predicate Complementary(e1: Expr, e2: Expr)
    requires e1.Bin?
  {
    ExtractEq(Dual(e1.op), Transform(Not(e1)), e2).rest1 == Sym(Neutral(Dual(e1.op)))
  }

  /** The operand `p1` is replaced by the deciding constant if the node at `p2` is its complement. */
  function ComplementAt(op: Op, t: Expr, p1: Path, p2: Path, count: nat): Pass
    requires InSpine(op, t, p1) && InSpine(op, t, p2) && At(op, t, p1).Bin?
  {
    if Complementary(At(op, t, p1), At(op, t, p2)) then
      Pass(Put(op, t, p1, Sym(Absorbing(op))), count + 1)
    else
      Pass(t, count)
  }

  lemma ComplementOk(op: Op, t: Expr, p1: Path, p2: Path, count: nat)
    requires InSpine(op, t, p1) && InSpine(op, t, p2) && p1 != []
    requires At(op, t, p1).Bin? && !IsOp(op, At(op, t, p1))
    ensures PassOk(op, t, count, ComplementAt(op, t, p1, p2, count))
  {
    PassNothing(op, t, count);
    PutShape(op, t, p1, Sym(Absorbing(op)));
    SizePositive(At(op, t, p1));
  }

  /** `expr_eliminate_dups2`. After descending into an `op` node on the second side it goes on with that
      node itself: there is no return in between. */
  function Dups2(op: Op, t: Expr, p1: Path, p2: Path, count: nat): (r: Pass)
    requires IsOp(op, t) && InSpine(op, t, p1) && InSpine(op, t, p2)
    ensures PassOk(op, t, count, r)
    decreases Size(t), Spine(op, At(op, t, p1)) + Spine(op, At(op, t, p2))
  {
    if IsOp(op, At(op, t, p1)) then
      SlotBelow(op, t, p1, L); SlotBelow(op, t, p1, R);
      var a := Dups2(op, t, p1 + [L], p2, count);
      SlotAfter(op, t, a.tree, p1 + [R]); SlotAfter(op, t, a.tree, p2);
      var b := Dups2(op, a.tree, p1 + [R], p2, a.count);
      PassThen(op, t, count, a, b);
      b
    else
      PassNothing(op, t, count);
      var a :=
        if IsOp(op, At(op, t, p2)) then (
          SlotBelow(op, t, p2, L); SlotBelow(op, t, p2, R);
          var x := Dups2(op, t, p1, p2 + [L], count);
          SlotAfter(op, t, x.tree, p2 + [R]); SlotAfter(op, t, x.tree, p1);
          var y := Dups2(op, x.tree, p1, p2 + [R], x.count);
          PassThen(op, t, count, x, y);
          y)
        else Pass(t, count);
      SlotAfter(op, t, a.tree, p1); SlotAfter(op, t, a.tree, p2);
      var e1 := At(op, a.tree, p1);
      if p1 == p2 || !e1.Bin? then a
      else
        PutShape(op, a.tree, p1, e1);
        var n := Dups2(e1.op, e1, [], [], a.count);
        PassNested(op, a.tree, p1, a.count, n);
        var b := Pass(Put(op, a.tree, p1, n.tree), n.count);
        PassThen(op, t, count, a, b);
        PutShape(op, a.tree, p1, n.tree);
        SlotAfter(op, t, b.tree, p2);
        ComplementOk(op, b.tree, p1, p2, b.count);
        var c := ComplementAt(op, b.tree, p1, p2, b.count);
        PassThen(op, t, count, b, c);
        c
  }

  /** Definite values are kept; only `m` may become definite. */
  predicate Refines(before: Tri, after: Tri) { before == Mod || before == after }

  lemma ApplyRefines(op: Op, a: Tri, b: Tri, b': Tri)
    requires Refines(b, b')
    ensures Refines(Apply(op, a, b), Apply(op, a, b'))
  {}

  /** An AND tree is at most each of its nodes, an OR tree at least: joining a node again changes nothing. */
  lemma {:induction false} SpineAbsorbs(op: Op, t: Expr, p: Path, env: Assignment)
    requires InSpine(op, t, p)
    ensures Apply(op, Value(t, env), Value(At(op, t, p), env)) == Value(t, env)
  {
    if p != [] { SpineAbsorbs(op, if p[0] == L then t.left else t.right, p[1..], env); }
  }

  lemma ComplementRefines(op: Op, t: Expr, p1: Path, p2: Path, count: nat, env: Assignment)
    requires InSpine(op, t, p1) && InSpine(op, t, p2) && At(op, t, p1).Bin? && !IsOp(op, At(op, t, p1))
    requires WellTyped(env)
    ensures Refines(Value(t, env), Value(ComplementAt(op, t, p1, p2, count).tree, env))
  {
    var e1, e2 := At(op, t, p1), At(op, t, p2);
    if Complementary(e1, e2) {
      var x := ExtractEq(op, Transform(Not(e1)), e2);
      ExtractEqSplits(op, Transform(Not(e1)), e2, env);
      TransformValue(Not(e1), env);
      SpineAbsorbs(op, t, p1, env);
      SpineAbsorbs(op, t, p2, env);
      var c, rest := CollectedValue(op, x.common, env), Value(x.rest2, env);
      assert Value(Not(e1), env) == Apply(op, c, Unit(op)) == c;
      assert Value(e2, env) == Apply(op, Negate(Value(e1, env)), rest);
      PutValue(op, t, p1, Sym(Absorbing(op)), env);
    }
  }

  /** Where it fires it keeps the value exactly when the value was not `m`. */
  lemma ComplementExactly(op: Op, t: Expr, p1: Path, p2: Path, count: nat, env: Assignment)
    requires InSpine(op, t, p1) && InSpine(op, t, p2) && At(op, t, p1).Bin? && !IsOp(op, At(op, t, p1))
    requires WellTyped(env) && Complementary(At(op, t, p1), At(op, t, p2))
    ensures Value(ComplementAt(op, t, p1, p2, count).tree, env) == Value(t, env) <==> Value(t, env) != Mod
  {
    ComplementRefines(op, t, p1, p2, count, env);
    PutValue(op, t, p1, Sym(Absorbing(op)), env);
  }

  /** The complement half may replace `m` by a definite value and changes nothing else. */
  lemma {:induction false} Dups2Refines(op: Op, t: Expr, p1: Path, p2: Path, count: nat, env: Assignment)
    requires IsOp(op, t) && InSpine(op, t, p1) && InSpine(op, t, p2)
    requires WellTyped(env)
    ensures Refines(Value(t, env), Value(Dups2(op, t, p1, p2, count).tree, env))
    decreases Size(t), Spine(op, At(op, t, p1)) + Spine(op, At(op, t, p2))
  {
    if IsOp(op, At(op, t, p1)) {
      SlotBelow(op, t, p1, L); SlotBelow(op, t, p1, R);
      var a := Dups2(op, t, p1 + [L], p2, count);
      SlotAfter(op, t, a.tree, p1 + [R]); SlotAfter(op, t, a.tree, p2);
      Dups2Refines(op, t, p1 + [L], p2, count, env);
      Dups2Refines(op, a.tree, p1 + [R], p2, a.count, env);
    } else {
      PassNothing(op, t, count);
      var a := Pass(t, count);
      if IsOp(op, At(op, t, p2)) {
        SlotBelow(op, t, p2, L); SlotBelow(op, t, p2, R);
        var x := Dups2(op, t, p1, p2 + [L], count);
        SlotAfter(op, t, x.tree, p2 + [R]); SlotAfter(op, t, x.tree, p1);
        Dups2Refines(op, t, p1, p2 + [L], count, env);
        Dups2Refines(op, x.tree, p1, p2 + [R], x.count, env);
        a := Dups2(op, x.tree, p1, p2 + [R], x.count);
        PassThen(op, t, count, x, a);
      }
      SlotAfter(op, t, a.tree, p1); SlotAfter(op, t, a.tree, p2);
      var e1 := At(op, a.tree, p1);
      if p1 != p2 && e1.Bin? {
        PutShape(op, a.tree, p1, e1);
        var n := Dups2(e1.op, e1, [], [], a.count);
        Dups2Refines(e1.op, e1, [], [], a.count, env);
        PassNested(op, a.tree, p1, a.count, n);
        var b := Pass(Put(op, a.tree, p1, n.tree), n.count);
        PassThen(op, t, count, a, b);
        PutShape(op, a.tree, p1, n.tree);
        PutValue(op, a.tree, p1, e1, env);
        PutValue(op, a.tree, p1, n.tree, env);
        ApplyRefines(op, Value(Put(op, a.tree, p1, Sym(Neutral(op))), env), Value(e1, env), Value(n.tree, env));
        SlotAfter(op, t, b.tree, p2);
        ComplementRefines(op, b.tree, p1, p2, b.count, env);
      }
    }
  }

  // ----- expr_eliminate_dups -----

  /** One round of the loop over an AND/OR tree. */
  function Round(e: Expr): (r: Pass)
    ensures Size(r.tree) <= Size(e)
    ensures r.count == 0 ==> r.tree == e
    ensures r.count > 0 ==> HasConstOperand(r.tree)
    ensures Nnf(e) ==> Nnf(r.tree)
  {
    if !e.Bin? then Pass(e, 0)
    else
      var a := Dups1(e.op, e, [], [], 0);
      var b := Dups2(e.op, a.tree, [], [], a.count);
      PassThen(e.op, e, 0, a, b);
      b
  }

  lemma RoundRefines(e: Expr, env: Assignment)
    requires WellTyped(env)
    ensures Refines(Value(e, env), Value(Round(e).tree, env))
  {
    if e.Bin? {
      var a := Dups1(e.op, e, [], [], 0);
      Dups1Value(e.op, e, [], [], 0, env);
      Dups2Refines(e.op, a.tree, [], [], a.count, env);
    }
  }

  /** Where the loop stops; every round with a transformation makes the tree strictly smaller. */
  function Reduced(e: Expr): Expr
    decreases Size(e)
  {
    var r := Round(e);
    if r.count == 0 then e
    else
      EliminateYnShape(r.tree);
      Reduced(EliminateYn(r.tree))
  }

  lemma {:induction false} ReducedRefines(e: Expr, env: Assignment)
    requires WellTyped(env)
    ensures Refines(Value(e, env), Value(Reduced(e), env))
    decreases Size(e)
  {
    var r := Round(e);
    if r.count != 0 {
      RoundRefines(e, env);
      EliminateYnShape(r.tree);
      EliminateYnValue(r.tree, env);
      ReducedRefines(EliminateYn(r.tree), env);
    }
  }

  /** The result is no bigger, is a fixed point of the loop, and stays in negation normal form. */
  lemma {:induction false} ReducedShape(e: Expr)
    ensures Size(Reduced(e)) <= Size(e)
    ensures Round(Reduced(e)).count == 0 && Reduced(Reduced(e)) == Reduced(e)
    ensures Nnf(e) ==> Nnf(Reduced(e))
    decreases Size(e)
  {
    var r := Round(e);
    if r.count != 0 {
      EliminateYnShape(r.tree);
      ReducedShape(EliminateYn(r.tree));
    }
  }

  /** `expr_eliminate_dups`: the loop itself. */
  method EliminateDups(e: Expr) returns (r: Expr)
    ensures r == Reduced(e)
    ensures forall env | WellTyped(env) :: Refines(Value(e, env), Value(r, env))
    ensures Round(r).count == 0 && (r.Bin? ==> Apart(r.op, r, [], []) && Compatible(r.op, r, [], []))
  {
    r := e;
    while true
      invariant Reduced(r) == Reduced(e)
      decreases Size(r)
    {
      var round := Round(r);
      if round.count == 0 { break; }
      EliminateYnShape(round.tree);
      r := EliminateYn(round.tree);
    }
    if r.Bin? { RoundDone(r); }
    forall env | WellTyped(env)
      ensures Refines(Value(e, env), Value(r, env))
    {
      ReducedRefines(e, env);
    }
  }

  // ----- where nothing is merged, and an expression whose value changes -----

  /** No pair of different operands below the two slots joins, nor any pair inside an operand. */
  predicate Apart(op: Op, t: Expr, p1: Path, p2: Path)
    requires IsOp(op, t) && InSpine(op, t, p1) && InSpine(op, t, p2)
    decreases Size(t), Spine(op, At(op, t, p1)) + Spine(op, At(op, t, p2))
  {
    var e1, e2 := At(op, t, p1), At(op, t, p2);
    if IsOp(op, e1) then
      SlotBelow(op, t, p1, L); SlotBelow(op, t, p1, R);
      Apart(op, t, p1 + [L], p2) && Apart(op, t, p1 + [R], p2)
    else if IsOp(op, e2) then
      SlotBelow(op, t, p2, L); SlotBelow(op, t, p2, R);
      Apart(op, t, p1, p2 + [L]) && Apart(op, t, p1, p2 + [R])
    else if p1 == p2 then true
    else
      PutShape(op, t, p1, e1);
      Join(op, e1, e2).None? && (e1.Bin? ==> Apart(e1.op, e1, [], []))
  }

  lemma {:induction false} Dups1Apart(op: Op, t: Expr, p1: Path, p2: Path, count: nat)
    requires IsOp(op, t) && InSpine(op, t, p1) && InSpine(op, t, p2) && Apart(op, t, p1, p2)
    ensures Dups1(op, t, p1, p2, count) == Pass(t, count)
    decreases Size(t), Spine(op, At(op, t, p1)) + Spine(op, At(op, t, p2))
  {
    var e1, e2 := At(op, t, p1), At(op, t, p2);
    if IsOp(op, e1) {
      SlotBelow(op, t, p1, L); SlotBelow(op, t, p1, R);
      Dups1Apart(op, t, p1 + [L], p2, count);
      Dups1Apart(op, t, p1 + [R], p2, count);
    } else if IsOp(op, e2) {
      SlotBelow(op, t, p2, L); SlotBelow(op, t, p2, R);
      Dups1Apart(op, t, p1, p2 + [L], count);
      Dups1Apart(op, t, p1, p2 + [R], count);
    } else if p1 != p2 {
      PutShape(op, t, p1, e1);
      if e1.Bin? { Dups1Apart(e1.op, e1, [], [], count); }
      assert Nested1(op, t, p1, count) == Pass(t, count);
    }
  }

  /** If the first half counts nothing, no two operands join: every pair was tried. */
  lemma {:induction false} Dups1Done(op: Op, t: Expr, p1: Path, p2: Path, count: nat)
    requires IsOp(op, t) && InSpine(op, t, p1) && InSpine(op, t, p2)
    requires Dups1(op, t, p1, p2, count).count == count
    ensures Apart(op, t, p1, p2)
    decreases Size(t), Spine(op, At(op, t, p1)) + Spine(op, At(op, t, p2))
  {
    var e1, e2 := At(op, t, p1), At(op, t, p2);
    if IsOp(op, e1) {
      SlotBelow(op, t, p1, L); SlotBelow(op, t, p1, R);
      Dups1Done(op, t, p1 + [L], p2, count);
      Dups1Done(op, t, p1 + [R], p2, count);
    } else if IsOp(op, e2) {
      SlotBelow(op, t, p2, L); SlotBelow(op, t, p2, R);
      Dups1Done(op, t, p1, p2 + [L], count);
      Dups1Done(op, t, p1, p2 + [R], count);
    } else if p1 != p2 {
      PutShape(op, t, p1, e1);
      if e1.Bin? { Dups1Done(e1.op, e1, [], [], count); }
    }
  }

  /** No operand is the complement of another part of the tree, nor inside an operand. */
  predicate Compatible(op: Op, t: Expr, p1: Path, p2: Path)
    requires IsOp(op, t) && InSpine(op, t, p1) && InSpine(op, t, p2)
    decreases Size(t), Spine(op, At(op, t, p1)) + Spine(op, At(op, t, p2))
  {
    var e1, e2 := At(op, t, p1), At(op, t, p2);
    if IsOp(op, e1) then
      SlotBelow(op, t, p1, L); SlotBelow(op, t, p1, R);
      Compatible(op, t, p1 + [L], p2) && Compatible(op, t, p1 + [R], p2)
    else
      var below :=
        if IsOp(op, e2) then (
          SlotBelow(op, t, p2, L); SlotBelow(op, t, p2, R);
          Compatible(op, t, p1, p2 + [L]) && Compatible(op, t, p1, p2 + [R]))
        else true;
      if p1 == p2 || !e1.Bin? then below
      else
        PutShape(op, t, p1, e1);
        below && Compatible(e1.op, e1, [], []) && !Complementary(e1, e2)
  }

  /** If the second half counts nothing, there are no complements: every operand was tried against every part. */
  lemma {:induction false} Dups2Done(op: Op, t: Expr, p1: Path, p2: Path, count: nat)
    requires IsOp(op, t) && InSpine(op, t, p1) && InSpine(op, t, p2)
    requires Dups2(op, t, p1, p2, count).count == count
    ensures Compatible(op, t, p1, p2)
    decreases Size(t), Spine(op, At(op, t, p1)) + Spine(op, At(op, t, p2))
  {
    var e1, e2 := At(op, t, p1), At(op, t, p2);
    if IsOp(op, e1) {
      SlotBelow(op, t, p1, L); SlotBelow(op, t, p1, R);
      Dups2Done(op, t, p1 + [L], p2, count);
      Dups2Done(op, t, p1 + [R], p2, count);
    } else {
      if IsOp(op, e2) {
        SlotBelow(op, t, p2, L); SlotBelow(op, t, p2, R);
        Dups2Done(op, t, p1, p2 + [L], count);
        Dups2Done(op, t, p1, p2 + [R], count);
      }
      if p1 != p2 && e1.Bin? {
        PutShape(op, t, p1, e1);
        Dups2Done(e1.op, e1, [], [], count);
      }
    }
  }

  lemma NothingCounted(op: Op, t: Expr, a: Pass, b: Pass)
    requires PassOk(op, t, 0, a) && PassOk(op, a.tree, a.count, b) && b.count == 0
    ensures a == Pass(t, 0)
  {}

  lemma {:induction false} RoundQuiet(e: Expr)
    requires e.Bin? && Round(e).count == 0
    ensures Dups1(e.op, e, [], [], 0).count == 0 && Dups2(e.op, e, [], [], 0).count == 0
  {
    var a := Dups1(e.op, e, [], [], 0);
    NothingCounted(e.op, e, a, Dups2(e.op, a.tree, [], [], a.count));
  }

  /** Where the loop stops nothing is left to merge or to replace. */
  lemma {:induction false} RoundDone(e: Expr)
    requires e.Bin? && Round(e).count == 0
    ensures Apart(e.op, e, [], []) && Compatible(e.op, e, [], [])
  {
    RoundQuiet(e);
    assert Apart(e.op, e, [], []) by { Dups1Done(e.op, e, [], [], 0); }
    assert Compatible(e.op, e, [], []) by { Dups2Done(e.op, e, [], [], 0); }
  }

  /** An operand that is no AND/OR node is never replaced by the second half. */
  lemma {:induction false} Dups2Leaf(op: Op, t: Expr, p1: Path, p2: Path, count: nat)
    requires IsOp(op, t) && InSpine(op, t, p1) && InSpine(op, t, p2) && !At(op, t, p1).Bin?
    ensures Dups2(op, t, p1, p2, count) == Pass(t, count)
    decreases Spine(op, At(op, t, p2))
  {
    if IsOp(op, At(op, t, p2)) {
      SlotBelow(op, t, p2, L); SlotBelow(op, t, p2, R);
      Dups2Leaf(op, t, p1, p2 + [L], count);
      Dups2Leaf(op, t, p1, p2 + [R], count);
    }
  }

  lemma SymbolsApart(op: Op, a: Symbol, b: Symbol)
    requires a != b
    ensures Join(op, Sym(a), Sym(b)).None? && Join(op, Not(Sym(a)), Not(Sym(b))).None?
  {
    assert !ExprEq(Sym(a), Sym(b));
  }

  lemma NodeApart(op: Op, e: Expr, a: Symbol)
    requires e.Bin?
    ensures Join(op, e, Not(Sym(a))).None? && Join(op, Not(Sym(a)), e).None?
  {}

  /** The slots of an AND/OR node with two operands that are none of its kind. */
  lemma PairSlots(op: Op, x: Expr, y: Expr)
    ensures var t := Bin(op, x, y);
      && InSpine(op, t, []) && InSpine(op, t, [L]) && InSpine(op, t, [R])
      && At(op, t, []) == t && At(op, t, [L]) == x && At(op, t, [R]) == y
      && [] + [L] == [L] && [] + [R] == [R]
  {
    assert [L][1..] == [] && [R][1..] == [];
  }

  lemma PairApart(op: Op, x: Expr, y: Expr)
    requires !x.Bin? && !y.Bin? && Join(op, x, y).None? && Join(op, y, x).None?
    ensures InSpine(op, Bin(op, x, y), []) && Apart(op, Bin(op, x, y), [], [])
  {
    var t := Bin(op, x, y);
    PairSlots(op, x, y);
    assert [L][0] != [R][0];
    assert Apart(op, t, [L], [L]) && Apart(op, t, [L], [R]);
    assert Apart(op, t, [R], [L]) && Apart(op, t, [R], [R]);
    assert Apart(op, t, [L], []) && Apart(op, t, [R], []);
  }

  lemma PairLeaves(op: Op, x: Expr, y: Expr, count: nat)
    requires !x.Bin? && !y.Bin?
    ensures InSpine(op, Bin(op, x, y), []) && Dups2(op, Bin(op, x, y), [], [], count) == Pass(Bin(op, x, y), count)
  {
    var t := Bin(op, x, y);
    PairSlots(op, x, y);
    Dups2Leaf(op, t, [L], [], count);
    Dups2Leaf(op, t, [R], [], count);
  }

  /** An AND or OR of two operands that do not join is left alone. */
  lemma ReducedPair(op: Op, x: Expr, y: Expr)
    requires !x.Bin? && !y.Bin? && Join(op, x, y).None? && Join(op, y, x).None?
    ensures Reduced(Bin(op, x, y)) == Bin(op, x, y)
  {
    PairApart(op, x, y);
    Dups1Apart(op, Bin(op, x, y), [], [], 0);
    PairLeaves(op, x, y, 0);
  }

  /** (a || b) && (!a && !b), or its dual. */
  function Opposed(op: Op, a: Symbol, b: Symbol): Expr {
    Bin(op, Bin(Dual(op), Sym(a), Sym(b)), Bin(op, Not(Sym(a)), Not(Sym(b))))
  }

  lemma OpposedSlots(op: Op, e: Expr, x: Expr, y: Expr)
    ensures var t := Bin(op, e, Bin(op, x, y));
      && InSpine(op, t, [R, L]) && InSpine(op, t, [R, R])
      && At(op, t, [R, L]) == x && At(op, t, [R, R]) == y
      && [R] + [L] == [R, L] && [R] + [R] == [R, R]
      && Put(op, t, [L], e) == t && forall z :: Put(op, t, [L], z) == Bin(op, z, Bin(op, x, y))
  {
    PairSlots(op, e, Bin(op, x, y));
    PairSlots(op, x, y);
    assert [R, L][1..] == [L] && [R, R][1..] == [R] && [L][1..] == [];
  }

  lemma OpposedApart(op: Op, a: Symbol, b: Symbol)
    requires a != b
    ensures var t := Opposed(op, a, b); InSpine(op, t, []) && Apart(op, t, [], [])
  {
    var e, x, y := Bin(Dual(op), Sym(a), Sym(b)), Not(Sym(a)), Not(Sym(b));
    var t := Bin(op, e, Bin(op, x, y));
    SymbolsApart(op, a, b); SymbolsApart(op, b, a);
    SymbolsApart(Dual(op), a, b); SymbolsApart(Dual(op), b, a);
    NodeApart(op, e, a); NodeApart(op, e, b);
    PairApart(Dual(op), Sym(a), Sym(b));
    PairSlots(op, e, Bin(op, x, y));
    OpposedSlots(op, e, x, y);
    assert [L][0] != [R, L][0] && [L][0] != [R, R][0] && [R, L][1] != [R, R][1];
    ThreeApart(op, e, x, y, [L]);
    ThreeApart(op, e, x, y, [R, L]);
    ThreeApart(op, e, x, y, [R, R]);
    assert Apart(op, t, [R], []);
  }

  /** One of three operands, apart from the other two. */
  lemma ThreeApart(op: Op, e: Expr, x: Expr, y: Expr, p: Path)
    requires p in {[L], [R, L], [R, R]} && !IsOp(op, e) && !IsOp(op, x) && !IsOp(op, y)
    requires var t := Bin(op, e, Bin(op, x, y)); InSpine(op, t, p) && InSpine(op, t, [])
    requires var u := At(op, Bin(op, e, Bin(op, x, y)), p);
      && !IsOp(op, u)
      && (u.Bin? ==> InSpine(u.op, u, []) && Apart(u.op, u, [], []))
      && (p == [L] || Join(op, u, e).None?) && (p == [R, L] || Join(op, u, x).None?) && (p == [R, R] || Join(op, u, y).None?)
    ensures Apart(op, Bin(op, e, Bin(op, x, y)), p, [])
  {
    var t := Bin(op, e, Bin(op, x, y));
    PairSlots(op, e, Bin(op, x, y));
    OpposedSlots(op, e, x, y);
    assert Apart(op, t, p, [L]);
    assert Apart(op, t, p, [R, L]);
    assert Apart(op, t, p, [R, R]);
    assert Apart(op, t, p, [R]);
  }

  /** The first operand is the complement of the rest, but of neither negation alone. */
  lemma OpposedComplement(op: Op, a: Symbol, b: Symbol)
    requires a.Config? && b.Config? && a != b
    ensures var e, x, y := Bin(Dual(op), Sym(a), Sym(b)), Not(Sym(a)), Not(Sym(b));
      Complementary(e, Bin(op, x, y)) && !Complementary(e, x) && !Complementary(e, y)
  {
    var e, x, y := Bin(Dual(op), Sym(a), Sym(b)), Not(Sym(a)), Not(Sym(b));
    var n, w := Sym(Neutral(op)), Bin(op, x, y);
    NormalIffFixed(e);
    NormalIffFixed(w);
    assert Dual(Dual(op)) == op && Transform(Not(e)) == Transform(w) == w;
    assert !ExprEq(x, y) && !ExprEq(y, x) by { assert !ExprEq(Sym(a), Sym(b)) && !ExprEq(Sym(b), Sym(a)); }
    assert ExprEq(x, x) && ExprEq(y, y) by { assert ExprEq(Sym(a), Sym(a)) && ExprEq(Sym(b), Sym(b)); }
    assert !ExprEq(n, x) && !ExprEq(n, y) && !ExprEq(x, n) && !ExprEq(y, n);
    ExtractOne(op, x, y, n);
    ExtractOther(op, x, y, n);
    ExtractBoth(op, x, y, n);
  }

  lemma ExtractOne(op: Op, x: Expr, y: Expr, n: Expr)
    requires n == Sym(Neutral(op)) && x.Not? && y.Not? && ExprEq(x, x) && !ExprEq(y, n)
    ensures ExtractEq(op, Bin(op, x, y), x).rest1 == y
  {
    assert ExtractSlots(op, None, x, x) == Extraction(Some(x), n, n);
    assert ExtractSlots(op, Some(x), y, n) == Extraction(Some(x), y, n);
    assert EliminateYn(y) == y && EliminateYn(Bin(op, n, y)) == y;
  }

  lemma ExtractOther(op: Op, x: Expr, y: Expr, n: Expr)
    requires n == Sym(Neutral(op)) && x.Not? && y.Not? && !ExprEq(x, y) && ExprEq(y, y)
    ensures ExtractEq(op, Bin(op, x, y), y).rest1 == x
  {
    assert ExtractSlots(op, None, x, y) == Extraction(None, x, y);
    assert ExtractSlots(op, None, y, y) == Extraction(Some(y), n, n);
    assert EliminateYn(x) == x && EliminateYn(Bin(op, x, n)) == x;
  }

  lemma ExtractBoth(op: Op, x: Expr, y: Expr, n: Expr)
    requires n == Sym(Neutral(op)) && x.Not? && y.Not? && ExprEq(x, x) && ExprEq(y, y)
    requires !ExprEq(n, y) && !ExprEq(y, n)
    ensures ExtractEq(op, Bin(op, x, y), Bin(op, x, y)).rest1 == n
  {
    assert ExtractSlots(op, None, x, x) == Extraction(Some(x), n, n);
    assert ExtractSlots(op, Some(x), n, y) == Extraction(Some(x), n, y);
    assert ExtractSlots(op, None, x, Bin(op, x, y)) == Extraction(Some(x), n, Bin(op, n, y));
    assert ExtractSlots(op, Some(x), y, n) == Extraction(Some(x), y, n);
    assert ExtractSlots(op, Some(x), y, y) == Extraction(Some(Bin(op, x, y)), n, n);
    assert ExtractSlots(op, Some(x), y, Bin(op, n, y)) == Extraction(Some(Bin(op, x, y)), n, Bin(op, n, n));
    assert EliminateYn(Bin(op, n, n)) == n;
  }

  /** The complement pass puts the deciding constant in the place of the first operand. */
  lemma OpposedDecided(op: Op, a: Symbol, b: Symbol)
    requires a.Config? && b.Config? && a != b
    ensures var t := Opposed(op, a, b);
      InSpine(op, t, []) && Dups2(op, t, [], [], 0) == Pass(Bin(op, Sym(Absorbing(op)), t.right), 1)
  {
    var e, x, y := Bin(Dual(op), Sym(a), Sym(b)), Not(Sym(a)), Not(Sym(b));
    var t, u := Opposed(op, a, b), Bin(op, Sym(Absorbing(op)), Bin(op, x, y));
    PairSlots(op, e, Bin(op, x, y));
    OpposedSlots(op, e, x, y);
    OpposedComplement(op, a, b);
    PairLeaves(Dual(op), Sym(a), Sym(b), 0);
    assert Dups2(op, t, [L], [R, L], 0) == Pass(t, 0);
    assert Dups2(op, t, [L], [R, R], 0) == Pass(t, 0);
    assert Dups2(op, t, [L], [R], 0) == Pass(u, 1);
    PairSlots(op, Sym(Absorbing(op)), Bin(op, x, y));
    OpposedSlots(op, Sym(Absorbing(op)), x, y);
    assert Dups2(op, t, [L], [L], 0) == Pass(t, 0);
    assert Dups2(op, t, [L], [], 0) == Pass(u, 1);
    Dups2Leaf(op, u, [R, L], [], 1);
    Dups2Leaf(op, u, [R, R], [], 1);
    assert Dups2(op, u, [R], [], 1) == Pass(u, 1);
  }

  /** With a and b at `m` the value is `m`, and the simplified expression is the constant `n` (for AND) or `y` (for OR). */
  lemma SimplifyingDropsMod(op: Op, a: Symbol, b: Symbol, env: Assignment)
    requires a.Config? && b.Config? && a != b
    requires WellTyped(env) && env(a).tri == Mod && env(b).tri == Mod
    ensures Value(Opposed(op, a, b), env) == Mod && Reduced(Opposed(op, a, b)) == Sym(Absorbing(op))
  {
    var t := Opposed(op, a, b);
    OpposedApart(op, a, b);
    Dups1Apart(op, t, [], [], 0);
    OpposedDecided(op, a, b);
    assert Value(Not(Sym(a)), env) == Mod && Value(Not(Sym(b)), env) == Mod;
    assert Value(t.left, env) == Mod && Value(t.right, env) == Mod;
    var u := Bin(op, Sym(Absorbing(op)), t.right);
    assert Round(t) == Pass(u, 1);
    assert EliminateYn(u) == Sym(Absorbing(op));
    assert Reduced(Sym(Absorbing(op))) == Sym(Absorbing(op));
  }
}
