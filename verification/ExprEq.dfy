/** Structural comparison of expressions modulo the order and the grouping of AND/OR operands. */
module Equivalence {
  import opened Common
  import opened Expressions

  /** Rank of a slot comparison: comparing two nodes that are not `op` falls back on `ExprEq`. */
  function SlotRank(op: Op, e1: Expr, e2: Expr): nat {
    if IsOp(op, e1) || IsOp(op, e2) then 0 else 4
  }

  /** `__expr_eliminate_eq`: operands occurring in both trees are replaced by the neutral constant. */
  function EliminateSlots(op: Op, e1: Expr, e2: Expr): (r: (Expr, Expr))
    ensures Size(r.0) <= Size(e1) && Size(r.1) <= Size(e2)
    ensures IsOp(op, e1) ==> IsOp(op, r.0)
    ensures IsOp(op, e2) ==> IsOp(op, r.1)
    decreases Size(e1) + Size(e2), SlotRank(op, e1, e2)
  {
    SizePositive(e1);
    SizePositive(e2);
    if IsOp(op, e1) then
      var (l, e2a) := EliminateSlots(op, e1.left, e2);
      var (r, e2b) := EliminateSlots(op, e1.right, e2a);
      (Bin(op, l, r), e2b)
    else if IsOp(op, e2) then
      var (e1a, l) := EliminateSlots(op, e1, e2.left);
      var (e1b, r) := EliminateSlots(op, e1a, e2.right);
      (e1b, Bin(op, l, r))
    else if e1.Sym? && e1 == e2 && e1.sym.IsYesOrNoFlagged() then (e1, e2)
    else if ExprEq(e1, e2) then (Sym(Neutral(op)), Sym(Neutral(op)))
    else (e1, e2)
  }

  /** `expr_eliminate_eq`, before and after `expr_eliminate_yn`. */
  function EliminateCommon(e1: Expr, e2: Expr): (r: (Expr, Expr))
    ensures Size(r.0) <= Size(e1) && Size(r.1) <= Size(e2)
    decreases Size(e1) + Size(e2), 1
  {
    var (a, b) := if e1.Bin? then EliminateSlots(e1.op, e1, e2) else (e1, e2);
    if b.Bin? && !IsOp(b.op, a) then EliminateSlots(b.op, a, b) else (a, b)
  }

  function EliminateEq(e1: Expr, e2: Expr): (Expr, Expr)
    decreases Size(e1) + Size(e2), 2
  {
    var (a, b) := EliminateCommon(e1, e2);
    (EliminateYn(a), EliminateYn(b))
  }

  /** `expr_eq`. */
  predicate ExprEq(e1: Expr, e2: Expr)
    decreases Size(e1) + Size(e2), 3
  {
    match (e1, e2)
    case (Sym(s), Sym(t)) => s == t
    case (Cmp(_, _, _), Cmp(_, _, _)) => e1 == e2
    case (Not(a), Not(b)) => ExprEq(a, b)
    case (Bin(op, _, _), Bin(op', _, _)) =>
      op == op' &&
      var (a, b) := EliminateEq(e1, e2);
      a.Sym? && a == b
    case _ => false
  }

  /** What elimination and extraction keep: one common part `c`, joined with each residue. */
  ghost predicate Splits(op: Op, c: Tri, e1: Expr, e2: Expr, r: (Expr, Expr), env: Assignment) {
    && Value(e1, env) == Apply(op, c, Value(r.0, env))
    && Value(e2, env) == Apply(op, c, Value(r.1, env))
  }

  /** Two splits in a row, the second over the residue of the first, make one split. */
  lemma SplitsLeft(op: Op, c1: Tri, c2: Tri, l: Expr, r: Expr, e2: Expr, x: (Expr, Expr), y: (Expr, Expr), env: Assignment)
    requires Splits(op, c1, l, e2, x, env)
    requires Splits(op, c2, r, x.1, y, env)
    ensures Splits(op, Apply(op, c1, c2), Bin(op, l, r), e2, (Bin(op, x.0, y.0), y.1), env)
  {
    ApplyExchange(op, c1, Value(x.0, env), c2, Value(y.0, env));
    ApplyAssoc(op, c1, c2, Value(y.1, env));
  }

  lemma SplitsRight(op: Op, c1: Tri, c2: Tri, e1: Expr, l: Expr, r: Expr, x: (Expr, Expr), y: (Expr, Expr), env: Assignment)
    requires Splits(op, c1, e1, l, x, env)
    requires Splits(op, c2, x.0, r, y, env)
    ensures Splits(op, Apply(op, c1, c2), e1, Bin(op, l, r), (y.0, Bin(op, x.1, y.1)), env)
  {
    ApplyExchange(op, c1, Value(x.1, env), c2, Value(y.1, env));
    ApplyAssoc(op, c1, c2, Value(y.0, env));
  }

  lemma {:induction false} EliminateSlotsSplits(op: Op, e1: Expr, e2: Expr, env: Assignment) returns (c: Tri)
    requires WellTyped(env)
    ensures Splits(op, c, e1, e2, EliminateSlots(op, e1, e2), env)
    decreases Size(e1) + Size(e2), SlotRank(op, e1, e2)
  {
    SizePositive(e1);
    SizePositive(e2);
    if IsOp(op, e1) {
      var x := EliminateSlots(op, e1.left, e2);
      var c1 := EliminateSlotsSplits(op, e1.left, e2, env);
      var c2 := EliminateSlotsSplits(op, e1.right, x.1, env);
      c := Apply(op, c1, c2);
      SplitsLeft(op, c1, c2, e1.left, e1.right, e2, x, EliminateSlots(op, e1.right, x.1), env);
    } else if IsOp(op, e2) {
      var x := EliminateSlots(op, e1, e2.left);
      var c1 := EliminateSlotsSplits(op, e1, e2.left, env);
      var c2 := EliminateSlotsSplits(op, x.0, e2.right, env);
      c := Apply(op, c1, c2);
      SplitsRight(op, c1, c2, e1, e2.left, e2.right, x, EliminateSlots(op, x.0, e2.right), env);
    } else if !(e1.Sym? && e1 == e2 && e1.sym.IsYesOrNoFlagged()) && ExprEq(e1, e2) {
      ExprEqSound(e1, e2, env);
      c := Value(e1, env);
    } else {
      c := Unit(op);
    }
  }

  /** When `expr_eq` answers true the two expressions have the same value on every assignment. */
  lemma {:induction false} ExprEqSound(e1: Expr, e2: Expr, env: Assignment)
    requires WellTyped(env)
    requires ExprEq(e1, e2)
    ensures Value(e1, env) == Value(e2, env)
    decreases Size(e1) + Size(e2), 3
  {
    if e1.Not? {
      ExprEqSound(e1.arg, e2.arg, env);
    } else if e1.Bin? {
      var (a, b) := EliminateSlots(e1.op, e1, e2);
      assert EliminateCommon(e1, e2) == (a, b);
      var c := EliminateSlotsSplits(e1.op, e1, e2, env);
      EliminateYnValue(a, env);
      EliminateYnValue(b, env);
    }
  }

  /** If elimination reduces the second expression to `y`, the first is at most the second. */
  lemma {:induction false} EliminateEqToYes(e1: Expr, e2: Expr, env: Assignment)
    requires WellTyped(env)
    requires EliminateEq(e1, e2).1 == Sym(SymYes)
    ensures Leq(Value(e1, env), Value(e2, env))
  {
    var (a, b) := if e1.Bin? then EliminateSlots(e1.op, e1, e2) else (e1, e2);
    if e1.Bin? {
      var c1 := EliminateSlotsSplits(e1.op, e1, e2, env);
    }
    var (a', b') := EliminateCommon(e1, e2);
    if b.Bin? && !IsOp(b.op, a) {
      var c2 := EliminateSlotsSplits(b.op, a, b, env);
    }
    EliminateYnValue(b', env);
  }

  // ----- completeness on equal trees -----

  /** All operands of the `op` spine are constants that elimination skips. */
  predicate Inert(op: Op, e: Expr) {
    if IsOp(op, e) then Inert(op, e.left) && Inert(op, e.right)
    else e.Sym? && e.sym.IsYesOrNoFlagged()
  }

  /** The spine with every operand that elimination does not skip replaced by the neutral constant. */
  function Neutralize(op: Op, e: Expr): Expr {
    if IsOp(op, e) then Bin(op, Neutralize(op, e.left), Neutralize(op, e.right))
    else if e.Sym? && e.sym.IsYesOrNoFlagged() then e
    else Sym(Neutral(op))
  }

  lemma {:induction false} InertUnchanged(op: Op, e1: Expr, e2: Expr)
    requires Inert(op, e1) || Inert(op, e2)
    ensures EliminateSlots(op, e1, e2) == (e1, e2)
    decreases Size(e1) + Size(e2)
  {
    SizePositive(e1);
    SizePositive(e2);
    if IsOp(op, e1) {
      InertUnchanged(op, e1.left, e2);
      InertUnchanged(op, e1.right, e2);
    } else if IsOp(op, e2) {
      InertUnchanged(op, e1, e2.left);
      InertUnchanged(op, e1, e2.right);
    }
  }

  /** Comparing with an `op` node is comparing with its operands one after the other. */
  lemma {:induction false} SlotsThroughBin(op: Op, e1: Expr, a: Expr, b: Expr)
    ensures var x := EliminateSlots(op, e1, a);
            var y := EliminateSlots(op, x.0, b);
            EliminateSlots(op, e1, Bin(op, a, b)) == (y.0, Bin(op, x.1, y.1))
    decreases e1
  {
    if IsOp(op, e1) {
      var x := EliminateSlots(op, e1.left, a);
      var y := EliminateSlots(op, x.0, b);
      SlotsThroughBin(op, e1.left, a, b);
      SlotsThroughBin(op, e1.right, x.1, y.1);
    }
  }

  /** How many operands of the `op` spine are string constants. */
  function Strings(op: Op, e: Expr): nat {
    if IsOp(op, e) then Strings(op, e.left) + Strings(op, e.right)
    else if e.Sym? && e.sym.Literal? then 1 else 0
  }

  /** At every level each AND/OR spine has at most one string operand. */
  predicate Groups(e: Expr) {
    match e
    case Sym(_) => true
    case Cmp(_, _, _) => true
    case Not(a) => Groups(a)
    case Bin(op, l, r) => Strings(op, e) <= 1 && Groups(l) && Groups(r)
  }

  lemma {:induction false} NeutralizeInert(op: Op, e: Expr)
    ensures Inert(op, Neutralize(op, e))
  {
    if IsOp(op, e) {
      NeutralizeInert(op, e.left);
      NeutralizeInert(op, e.right);
    }
  }

  /** With at most one string operand what is left folds to a single symbol. */
  lemma {:induction false} NeutralizeFolds(op: Op, e: Expr)
    requires Strings(op, e) <= 1
    ensures EliminateYn(Neutralize(op, e)).Sym?
    ensures Strings(op, e) == 0 ==> IsYesNo(EliminateYn(Neutralize(op, e)))
  {
    if IsOp(op, e) {
      NeutralizeFolds(op, e.left);
      NeutralizeFolds(op, e.right);
    }
  }

  lemma {:induction false} SlotsOnSelf(op: Op, e: Expr)
    requires Groups(e)
    ensures EliminateSlots(op, e, e) == (Neutralize(op, e), Neutralize(op, e))
    decreases e, if IsOp(op, e) then 0 else 2
  {
    if IsOp(op, e) {
      var l, r := e.left, e.right;
      var l', r' := Neutralize(op, l), Neutralize(op, r);
      NeutralizeInert(op, l);
      SlotsOnSelf(op, l);
      SlotsOnSelf(op, r);
      SlotsThroughBin(op, l, l, r);
      InertUnchanged(op, l', r);
      SlotsThroughBin(op, r, l', r);
      InertUnchanged(op, r, l');
    } else {
      ExprEqReflexive(e);
    }
  }

  /** `expr_eq` recognises an expression as equal to itself, however deep, if no group has two string operands. */
  lemma {:induction false} ExprEqReflexive(e: Expr)
    requires Groups(e)
    ensures ExprEq(e, e)
    decreases e, 1
  {
    if e.Not? {
      ExprEqReflexive(e.arg);
    } else if e.Bin? {
      SlotsOnSelf(e.op, e);
      NeutralizeFolds(e.op, e);
      assert EliminateCommon(e, e) == (Neutralize(e.op, e), Neutralize(e.op, e));
    }
  }

  /** No AND/OR node has y or n as an operand. */
  predicate ConstFree(e: Expr) {
    match e
    case Sym(_) => true
    case Cmp(_, _, _) => true
    case Not(a) => ConstFree(a)
    case Bin(_, l, r) => !IsYesNo(l) && !IsYesNo(r) && ConstFree(l) && ConstFree(r)
  }

  lemma {:induction false} ConstFreeKept(e: Expr)
    requires ConstFree(e)
    ensures EliminateYn(e) == e
  {
    if e.Bin? {
      ConstFreeKept(e.left);
      ConstFreeKept(e.right);
    }
  }

  /** `r` is the `op` spine `e` with some operands replaced by the neutral constant, all of them recognisable. */
  predicate Residue(op: Op, e: Expr, r: Expr) {
    if IsOp(op, e) then IsOp(op, r) && Residue(op, e.left, r.left) && Residue(op, e.right, r.right)
    else r == e || (r == Sym(Neutral(op)) && Groups(e) && Strings(op, e) == 0)
  }

  lemma {:induction false} ResidueSelf(op: Op, e: Expr)
    ensures Residue(op, e, e)
  {
    if IsOp(op, e) {
      ResidueSelf(op, e.left);
      ResidueSelf(op, e.right);
    }
  }

  /** Elimination only ever takes out operands that `expr_eq` recognises. */
  lemma {:induction false} SlotsResidue(op: Op, f1: Expr, f2: Expr, e1: Expr, e2: Expr)
    requires Residue(op, f1, e1) && Residue(op, f2, e2) && ConstFree(f1) && ConstFree(f2)
    ensures var r := EliminateSlots(op, e1, e2); Residue(op, f1, r.0) && Residue(op, f2, r.1)
    decreases Size(e1) + Size(e2), SlotRank(op, e1, e2)
  {
    SizePositive(e1);
    SizePositive(e2);
    if IsOp(op, e1) {
      var x := EliminateSlots(op, e1.left, e2);
      SlotsResidue(op, f1.left, f2, e1.left, e2);
      SlotsResidue(op, f1.right, f2, e1.right, x.1);
    } else if IsOp(op, e2) {
      var x := EliminateSlots(op, e1, e2.left);
      SlotsResidue(op, f1, f2.left, e1, e2.left);
      SlotsResidue(op, f1, f2.right, x.0, e2.right);
    } else if !(e1.Sym? && e1 == e2 && e1.sym.IsYesOrNoFlagged()) && ExprEq(e1, e2) {
      EqualGroups(e1, e2);
    }
  }

  /** A residue that folds to one symbol had at most one string operand, and recognisable operands otherwise. */
  lemma {:induction false} ResidueFolds(op: Op, e: Expr, r: Expr)
    requires Residue(op, e, r) && ConstFree(e) && !IsYesNo(e)
    ensures EliminateYn(r) != Sym(Absorbing(op))
    ensures EliminateYn(r).Sym? ==> Groups(e) && Strings(op, e) <= 1
    ensures EliminateYn(r) == Sym(Neutral(op)) ==> Strings(op, e) == 0
  {
    if IsOp(op, e) {
      ResidueFolds(op, e.left, r.left);
      ResidueFolds(op, e.right, r.right);
    } else {
      ConstFreeKept(e);
    }
  }

  /** Whatever `expr_eq` answers true for has no group with two string operands. */
  lemma {:induction false} EqualGroups(e1: Expr, e2: Expr)
    requires ConstFree(e1) && ConstFree(e2) && ExprEq(e1, e2)
    ensures Groups(e1) && Groups(e2)
    decreases Size(e1) + Size(e2), 3
  {
    if e1.Not? {
      EqualGroups(e1.arg, e2.arg);
    } else if e1.Bin? {
      var op := e1.op;
      var (a, b) := EliminateSlots(op, e1, e2);
      assert EliminateCommon(e1, e2) == (a, b);
      ResidueSelf(op, e1);
      ResidueSelf(op, e2);
      SlotsResidue(op, e1, e2, e1, e2);
      ResidueFolds(op, e1, a);
      ResidueFolds(op, e2, b);
    }
  }

  /** So an expression without y/n operands is recognised as itself if and only if no group has two string operands. */
  lemma {:induction false} ExprEqSelfExactly(e: Expr)
    requires ConstFree(e)
    ensures ExprEq(e, e) <==> Groups(e)
  {
    if Groups(e) { ExprEqReflexive(e); }
    if ExprEq(e, e) { EqualGroups(e, e); }
  }

  /** A constant can hide two strings: `n && ("a" && "b")` is recognised although it has two string operands. */
  lemma ExprEqConstants()
    ensures var e := Bin(And, Sym(SymNo), Bin(And, Sym(Literal("a")), Sym(Literal("b")))); ExprEq(e, e) && !Groups(e)
  {
    var l, r := Sym(SymNo), Bin(And, Sym(Literal("a")), Sym(Literal("b")));
    var e := Bin(And, l, r);
    assert "a"[0] != "b"[0];
    assert Strings(And, r) == 2;
    assert Inert(And, l) && Inert(And, r);
    InertUnchanged(And, e, e);
    assert EliminateCommon(e, e) == (e, e);
    assert EliminateYn(e) == Sym(SymNo);
  }

  /** An AND of any two strings is not: the residue is not a single symbol. */
  lemma ExprEqLiterals(a: ConstName, b: ConstName)
    ensures var e := Bin(And, Sym(Literal(a)), Sym(Literal(b))); !ExprEq(e, e)
  {
    var e := Bin(And, Sym(Literal(a)), Sym(Literal(b)));
    assert Strings(And, e.left) == 1 && Strings(And, e.right) == 1;
    ExprEqSelfExactly(e);
  }

  // ----- expr_extract_eq -----

  /** The common part collected so far: joined with `op`, or nothing yet. */
  function Collect(op: Op, acc: Option<Expr>, e: Expr): Option<Expr> {
    match acc case None => Some(e) case Some(x) => Some(Bin(op, x, e))
  }

  ghost function CollectedValue(op: Op, acc: Option<Expr>, env: Assignment): Tri {
    match acc case None => Unit(op) case Some(x) => Value(x, env)
  }

  datatype Extraction = Extraction(common: Option<Expr>, rest1: Expr, rest2: Expr)

  /** `expr_extract_eq`. */
  function ExtractSlots(op: Op, acc: Option<Expr>, e1: Expr, e2: Expr): (r: Extraction)
    ensures Size(r.rest1) <= Size(e1) && Size(r.rest2) <= Size(e2)
    decreases Size(e1) + Size(e2)
  {
    SizePositive(e1);
    SizePositive(e2);
    if IsOp(op, e1) then
      var x := ExtractSlots(op, acc, e1.left, e2);
      var y := ExtractSlots(op, x.common, e1.right, x.rest2);
      Extraction(y.common, Bin(op, x.rest1, y.rest1), y.rest2)
    else if IsOp(op, e2) then
      var x := ExtractSlots(op, acc, e1, e2.left);
      var y := ExtractSlots(op, x.common, x.rest1, e2.right);
      Extraction(y.common, y.rest1, Bin(op, x.rest2, y.rest2))
    else if ExprEq(e1, e2) then
      Extraction(Collect(op, acc, e1), Sym(Neutral(op)), Sym(Neutral(op)))
    else
      Extraction(acc, e1, e2)
  }

  /** `expr_extract_eq_and` and `expr_extract_eq_or`: constants are folded only if something was found. */
  function ExtractEq(op: Op, e1: Expr, e2: Expr): Extraction {
    var x := ExtractSlots(op, None, e1, e2);
    if x.common == None then x
    else Extraction(x.common, EliminateYn(x.rest1), EliminateYn(x.rest2))
  }

  lemma {:induction false} ExtractSlotsSplits(op: Op, acc: Option<Expr>, e1: Expr, e2: Expr, env: Assignment)
    returns (c: Tri)
    requires WellTyped(env)
    ensures var x := ExtractSlots(op, acc, e1, e2);
      && Splits(op, c, e1, e2, (x.rest1, x.rest2), env)
      && CollectedValue(op, x.common, env) == Apply(op, CollectedValue(op, acc, env), c)
    decreases Size(e1) + Size(e2)
  {
    SizePositive(e1);
    SizePositive(e2);
    if IsOp(op, e1) {
      var x := ExtractSlots(op, acc, e1.left, e2);
      var c1 := ExtractSlotsSplits(op, acc, e1.left, e2, env);
      var y := ExtractSlots(op, x.common, e1.right, x.rest2);
      var c2 := ExtractSlotsSplits(op, x.common, e1.right, x.rest2, env);
      c := Apply(op, c1, c2);
      SplitsLeft(op, c1, c2, e1.left, e1.right, e2, (x.rest1, x.rest2), (y.rest1, y.rest2), env);
      ApplyAssoc(op, CollectedValue(op, acc, env), c1, c2);
    } else if IsOp(op, e2) {
      var x := ExtractSlots(op, acc, e1, e2.left);
      var c1 := ExtractSlotsSplits(op, acc, e1, e2.left, env);
      var y := ExtractSlots(op, x.common, x.rest1, e2.right);
      var c2 := ExtractSlotsSplits(op, x.common, x.rest1, e2.right, env);
      c := Apply(op, c1, c2);
      SplitsRight(op, c1, c2, e1, e2.left, e2.right, (x.rest1, x.rest2), (y.rest1, y.rest2), env);
      ApplyAssoc(op, CollectedValue(op, acc, env), c1, c2);
    } else if ExprEq(e1, e2) {
      ExprEqSound(e1, e2, env);
      c := Value(e1, env);
    } else {
      c := Unit(op);
    }
  }

  /** Both inputs are the extracted common part joined with their own residue. */
  lemma {:induction false} ExtractEqSplits(op: Op, e1: Expr, e2: Expr, env: Assignment)
    requires WellTyped(env)
    ensures var x := ExtractEq(op, e1, e2);
      Splits(op, CollectedValue(op, x.common, env), e1, e2, (x.rest1, x.rest2), env)
  {
    var x := ExtractSlots(op, None, e1, e2);
    var c := ExtractSlotsSplits(op, None, e1, e2, env);
    EliminateYnValue(x.rest1, env);
    EliminateYnValue(x.rest2, env);
  }
}
