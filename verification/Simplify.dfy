/** What `expr_eliminate_dups` achieves: the simplified expression repeats no operand. */
module Simplified {
  import opened Common
  import opened Expressions
  import opened Transformation
  import opened Equivalence
  import opened Canonical
  import opened Joining
  import opened Duplicates

  /** The slots below two slots of which all pairs were tried. */
  lemma {:induction false} ApartAt(op: Op, t: Expr, p1: Path, p2: Path, r1: Path, r2: Path)
    requires IsOp(op, t) && InSpine(op, t, p1) && InSpine(op, t, p2) && Apart(op, t, p1, p2)
    requires InSpine(op, t, p1 + r1) && InSpine(op, t, p2 + r2) && p1 + r1 != p2 + r2
    requires !IsOp(op, At(op, t, p1 + r1)) && !IsOp(op, At(op, t, p2 + r2))
    ensures Join(op, At(op, t, p1 + r1), At(op, t, p2 + r2)).None?
    ensures var e := At(op, t, p1 + r1); e.Bin? ==> InSpine(e.op, e, []) && Apart(e.op, e, [], [])
    decreases |r1| + |r2|
  {
    if r1 != [] {
      SlotAbove(op, t, p1, r1);
      SlotBelow(op, t, p1, r1[0]);
      assert p1 + [r1[0]] + r1[1..] == p1 + r1;
      ApartAt(op, t, p1 + [r1[0]], p2, r1[1..], r2);
    } else if r2 != [] {
      assert p1 + r1 == p1;
      SlotAbove(op, t, p2, r2);
      SlotBelow(op, t, p2, r2[0]);
      assert p2 + [r2[0]] + r2[1..] == p2 + r2;
      ApartAt(op, t, p1, p2 + [r2[0]], r1, r2[1..]);
    } else {
      assert p1 + r1 == p1 && p2 + r2 == p2;
    }
  }

  /** A slot above another is a node of the group. */
  lemma {:induction false} SlotAbove(op: Op, t: Expr, p: Path, r: Path)
    requires InSpine(op, t, p + r) && r != []
    ensures InSpine(op, t, p) && IsOp(op, At(op, t, p))
  {
    if p == [] {
      assert p + r == r;
    } else {
      assert (p + r)[1..] == p[1..] + r && (p + r)[0] == p[0];
      SlotAbove(op, if p[0] == L then t.left else t.right, p[1..], r);
    }
  }

  lemma {:induction false} FindOne(op: Op, t: Expr, z: Canon) returns (p: Path)
    requires Count(op, t, z) >= 1
    ensures InSpine(op, t, p) && !IsOp(op, At(op, t, p)) && Shape(At(op, t, p)) == z
  {
    if IsOp(op, t) {
      CountBin(op, t.left, t.right, z);
      if Count(op, t.left, z) >= 1 {
        var q := FindOne(op, t.left, z);
        p := [L] + q;
        assert p[1..] == q;
      } else {
        var q := FindOne(op, t.right, z);
        p := [R] + q;
        assert p[1..] == q;
      }
    } else {
      CountLeaf(op, t, z);
      p := [];
    }
  }

  /** An operand that occurs twice stands in two slots. */
  lemma {:induction false} FindTwo(op: Op, t: Expr, z: Canon) returns (p: Path, q: Path)
    requires Count(op, t, z) >= 2
    ensures InSpine(op, t, p) && !IsOp(op, At(op, t, p)) && Shape(At(op, t, p)) == z
    ensures InSpine(op, t, q) && !IsOp(op, At(op, t, q)) && Shape(At(op, t, q)) == z
    ensures p != q
  {
    if IsOp(op, t) {
      CountBin(op, t.left, t.right, z);
      var a, b;
      if Count(op, t.left, z) >= 2 {
        a, b := FindTwo(op, t.left, z);
        p, q := [L] + a, [L] + b;
        assert p[1..] == a && q[1..] == b;
      } else if Count(op, t.right, z) >= 2 {
        a, b := FindTwo(op, t.right, z);
        p, q := [R] + a, [R] + b;
        assert p[1..] == a && q[1..] == b;
      } else {
        a := FindOne(op, t.left, z);
        b := FindOne(op, t.right, z);
        p, q := [L] + a, [R] + b;
        assert p[1..] == a && q[1..] == b && p[0] != q[0];
      }
    } else {
      CountLeaf(op, t, z);
      p, q := [], [];
    }
  }

  lemma {:induction false} SlotPlain(op: Op, t: Expr, p: Path)
    requires InSpine(op, t, p) && ConstFree(t) && Groups(t)
    ensures ConstFree(At(op, t, p)) && Groups(At(op, t, p))
  {
    if p != [] { SlotPlain(op, if p[0] == L then t.left else t.right, p[1..]); }
  }

  /** Where no two operands join, no operand occurs twice, in whatever order and grouping its own operands are written. */
  lemma {:induction false} ApartOnce(op: Op, t: Expr, z: Canon)
    requires IsOp(op, t) && InSpine(op, t, []) && Apart(op, t, [], []) && ConstFree(t) && Groups(t)
    ensures Operands(op, t)[z] <= 1
  {
    if Count(op, t, z) >= 2 {
      var p, q := FindTwo(op, t, z);
      SlotPlain(op, t, p);
      SlotPlain(op, t, q);
      ShapeDecides(At(op, t, p), At(op, t, q));
      assert [] + p == p && [] + q == q;
      ApartAt(op, t, [], [], p, q);
      JoinEqual(op, At(op, t, p), At(op, t, q));
    }
  }

  /** No AND/OR group outside a NOT has an operand twice. */
  ghost predicate NoRepeats(e: Expr) {
    e.Bin? ==> (forall z :: Operands(e.op, e)[z] <= 1) && NoRepeats(e.left) && NoRepeats(e.right)
  }

  lemma {:induction false} SlotCount(op: Op, t: Expr, p: Path, z: Canon)
    requires InSpine(op, t, p)
    ensures Count(op, At(op, t, p), z) <= Count(op, t, z)
  {
    if p != [] {
      SlotCount(op, if p[0] == L then t.left else t.right, p[1..], z);
      CountBin(op, t.left, t.right, z);
    }
  }

  lemma {:induction false} AnyOperand(op: Op, t: Expr) returns (p: Path)
    ensures InSpine(op, t, p) && !IsOp(op, At(op, t, p))
  {
    p := [];
    if IsOp(op, t) {
      var q := AnyOperand(op, t.left);
      p := [L] + q;
      assert p[1..] == q;
    }
  }

  /** A group has another operand. */
  lemma OtherOperand(op: Op, t: Expr, p: Path) returns (q: Path)
    requires IsOp(op, t) && InSpine(op, t, p) && !IsOp(op, At(op, t, p))
    ensures InSpine(op, t, q) && !IsOp(op, At(op, t, q)) && q != p
  {
    if p[0] == L {
      var r := AnyOperand(op, t.right);
      q := [R] + r;
      assert q[1..] == r && q[0] != p[0];
    } else {
      var r := AnyOperand(op, t.left);
      q := [L] + r;
      assert q[1..] == r && q[0] != p[0];
    }
  }

  lemma {:induction false} ApartNoRepeats(op: Op, t: Expr, p: Path)
    requires IsOp(op, t) && InSpine(op, t, []) && Apart(op, t, [], []) && ConstFree(t) && Groups(t) && InSpine(op, t, p)
    ensures NoRepeats(At(op, t, p))
    decreases Size(t), Spine(op, At(op, t, p))
  {
    var e := At(op, t, p);
    if IsOp(op, e) {
      forall z ensures Operands(op, e)[z] <= 1 {
        ApartOnce(op, t, z);
        SlotCount(op, t, p, z);
      }
      SlotBelow(op, t, p, L);
      SlotBelow(op, t, p, R);
      ApartNoRepeats(op, t, p + [L]);
      ApartNoRepeats(op, t, p + [R]);
    } else if e.Bin? {
      var q := OtherOperand(op, t, p);
      assert [] + p == p && [] + q == q;
      ApartAt(op, t, [], [], p, q);
      SlotPlain(op, t, p);
      PutShape(op, t, p, e);
      ApartNoRepeats(e.op, e, []);
    }
  }

  /** A simplified expression without y/n operands, and without two strings in a group, repeats no operand. */
  lemma {:induction false} SimplifiedNoRepeats(e: Expr)
    requires ConstFree(Reduced(e)) && Groups(Reduced(e))
    ensures NoRepeats(Reduced(e))
  {
    var r := Reduced(e);
    ReducedShape(e);
    if r.Bin? {
      RoundDone(r);
      ApartNoRepeats(r.op, r, []);
    }
  }

  /** The negation of a group, pushed inwards, is a group of the other kind. */
  lemma {:induction false} NegatedGroup(e: Expr)
    requires e.Bin?
    ensures IsOp(Dual(e.op), Transform(Not(e)))
  {
    WeightPositive(e.left);
    WeightPositive(e.right);
  }

  /** An operand is replaced by the deciding constant if and only if all operands of its negation stand in the other part. */
  lemma {:induction false} ComplementaryExactly(e1: Expr, e2: Expr)
    requires e1.Bin? && ConstFree(e2) && Groups(e2) && !IsYesNo(e2)
    requires var w := Transform(Not(e1)); ConstFree(w) && Groups(w) && Strings(Dual(e1.op), w) == 0
    requires Strings(Dual(e1.op), e2) == 0
    ensures Complementary(e1, e2) <==> Operands(Dual(e1.op), Transform(Not(e1))) <= Operands(Dual(e1.op), e2)
  {
    NegatedGroup(e1);
    ExtractedExactly(Dual(e1.op), Transform(Not(e1)), e2);
  }

  // ----- the smallest instance -----

  lemma MergedPair(op: Op, x: Expr)
    requires !x.Bin? && ExprEq(x, x) && x != Sym(Neutral(op))
    ensures var t := Bin(op, x, x); InSpine(op, t, []) && Dups1(op, t, [], [], 0) == Pass(Bin(op, Sym(Neutral(op)), x), 1)
  {
    var n := Sym(Neutral(op));
    var t, u := Bin(op, x, x), Bin(op, n, x);
    PairSlots(op, x, x);
    PairSlots(op, n, x);
    assert [L][0] != [R][0];
    JoinEqual(op, x, x);
    assert Put(op, t, [L], n) == u by { assert [L][1..] == []; }
    assert Put(op, u, [R], x) == u by { assert [R][1..] == []; }
    assert MergeAt(op, t, [L], [R], 0) == Pass(u, 1);
    assert Dups1(op, t, [L], [L], 0) == Pass(t, 0);
    assert Dups1(op, t, [L], [R], 0) == Pass(u, 1);
    assert Dups1(op, t, [L], [], 0) == Pass(u, 1);
    assert !ExprEq(x, n);
    assert Dups1(op, u, [R], [L], 1) == Pass(u, 1);
    assert Dups1(op, u, [R], [R], 1) == Pass(u, 1);
    assert Dups1(op, u, [R], [], 1) == Pass(u, 1);
  }

  /** `A && A` and `A || A` become `A`. */
  lemma {:induction false} DuplicateGone(op: Op, x: Expr)
    requires !x.Bin? && Groups(x) && x != Sym(Neutral(op))
    ensures Reduced(Bin(op, x, x)) == x
  {
    var n := Sym(Neutral(op));
    var u := Bin(op, n, x);
    ExprEqReflexive(x);
    MergedPair(op, x);
    PairSlots(op, n, x);
    PairLeaves(op, n, x, 1);
    assert Round(Bin(op, x, x)) == Pass(u, 1);
    assert EliminateYn(u) == x;
  }
}
