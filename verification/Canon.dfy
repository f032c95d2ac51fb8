/** What `expr_eq` decides: equality modulo the order and the grouping of AND/OR operands, at every depth. */
module Canonical {
  import opened Common
  import opened Expressions
  import opened Equivalence

  /** An expression with the operands of every AND/OR group as a multiset. */
  datatype Canon =
    | Atom(sym: Symbol)
    | Test(rel: Rel, lhs: Symbol, rhs: Symbol)
    | Negated(arg: Canon)
    | Group(op: Op, operands: multiset<Canon>)

  function Shape(e: Expr): Canon
    decreases e, 1
  {
    match e
    case Sym(s) => Atom(s)
    case Cmp(rel, l, r) => Test(rel, l, r)
    case Not(a) => Negated(Shape(a))
    case Bin(op, _, _) => Group(op, Operands(op, e))
  }

  /** The operands of the `op` group at the root. */
  function Operands(op: Op, e: Expr): multiset<Canon>
    decreases e, if IsOp(op, e) then 0 else 2
  {
    if IsOp(op, e) then Operands(op, e.left) + Operands(op, e.right) else multiset{Shape(e)}
  }

  predicate Flagged(z: Canon) { z.Atom? && z.sym.IsYesOrNoFlagged() }

  predicate IsString(z: Canon) { z.Atom? && z.sym.Literal? }

  /** Of `a` and `b` occurrences of `z` on the two sides `a'` and `b'` are left: one side has none, and strings stay. */
  predicate Left(z: Canon, a: nat, b: nat, a': nat, b': nat) {
    && (!Flagged(z) ==> a - a' == b - b' >= 0 && (a' == 0 || b' == 0))
    && (IsString(z) ==> a' == a && b' == b)
  }

  function Count(op: Op, e: Expr, z: Canon): nat { Operands(op, e)[z] }

  lemma CountBin(op: Op, l: Expr, r: Expr, z: Canon)
    ensures Count(op, Bin(op, l, r), z) == Count(op, l, z) + Count(op, r, z)
  {}

  lemma CountLeaf(op: Op, e: Expr, z: Canon)
    requires !IsOp(op, e)
    ensures Count(op, e, z) == if Shape(e) == z then 1 else 0
  {}

  lemma NeutralUnmatched(op: Op, e1: Expr, e2: Expr)
    requires !IsOp(op, e1) && !IsOp(op, e2) && (e1 == Sym(Neutral(op)) || e2 == Sym(Neutral(op)))
    ensures EliminateSlots(op, e1, e2) == (e1, e2)
  {
    assert ExprEq(e1, e2) ==> e1 == e2;
  }

  /** One comparison of two operands. */
  lemma LeafLeft(op: Op, e1: Expr, e2: Expr, z: Canon)
    requires !IsOp(op, e1) && !IsOp(op, e2)
    requires e1 == Sym(Neutral(op)) || e2 == Sym(Neutral(op)) || (ExprEq(e1, e2) <==> Shape(e1) == Shape(e2))
    ensures var r := EliminateSlots(op, e1, e2); Left(z, Count(op, e1, z), Count(op, e2, z), Count(op, r.0, z), Count(op, r.1, z))
  {
    var n := Sym(Neutral(op));
    CountLeaf(op, e1, z);
    CountLeaf(op, e2, z);
    if e1 == n || e2 == n {
      NeutralUnmatched(op, e1, e2);
    } else if ExprEq(e1, e2) && !(e1.Sym? && e1 == e2 && e1.sym.IsYesOrNoFlagged()) {
      assert EliminateSlots(op, e1, e2) == (n, n);
      CountLeaf(op, n, z);
      assert Shape(e1) == z && z.Atom? ==> e1 == Sym(z.sym) == e2;
    } else {
      assert EliminateSlots(op, e1, e2) == (e1, e2);
    }
  }

  /** Elimination takes every operand out of both sides as often as both have it. */
  lemma {:induction false} SlotsLeft(op: Op, f1: Expr, f2: Expr, e1: Expr, e2: Expr, z: Canon)
    requires Residue(op, f1, e1) && Residue(op, f2, e2) && ConstFree(f1) && ConstFree(f2) && Groups(f1) && Groups(f2)
    ensures var r := EliminateSlots(op, e1, e2); Left(z, Count(op, e1, z), Count(op, e2, z), Count(op, r.0, z), Count(op, r.1, z))
    decreases Size(e1) + Size(e2), SlotRank(op, e1, e2)
  {
    SizePositive(e1);
    SizePositive(e2);
    if IsOp(op, e1) {
      var x := EliminateSlots(op, e1.left, e2);
      var y := EliminateSlots(op, e1.right, x.1);
      SlotsResidue(op, f1.left, f2, e1.left, e2);
      SlotsLeft(op, f1.left, f2, e1.left, e2, z);
      SlotsLeft(op, f1.right, f2, e1.right, x.1, z);
      CountBin(op, e1.left, e1.right, z);
      CountBin(op, x.0, y.0, z);
    } else if IsOp(op, e2) {
      var x := EliminateSlots(op, e1, e2.left);
      var y := EliminateSlots(op, x.0, e2.right);
      SlotsResidue(op, f1, f2.left, e1, e2.left);
      SlotsLeft(op, f1, f2.left, e1, e2.left, z);
      SlotsLeft(op, f1, f2.right, x.0, e2.right, z);
      CountBin(op, e2.left, e2.right, z);
      CountBin(op, x.1, y.1, z);
    } else {
      if e1 == f1 && e2 == f2 { ShapeDecides(e1, e2); }
      LeafLeft(op, e1, e2, z);
    }
  }

  // ----- what is left over -----

  /** The operands of the `op` group are the neutral constant and strings. */
  predicate Bare(op: Op, r: Expr) {
    if IsOp(op, r) then Bare(op, r.left) && Bare(op, r.right)
    else r == Sym(Neutral(op)) || (r.Sym? && r.sym.Literal?)
  }

  lemma {:induction false} ResidueStrings(op: Op, e: Expr, r: Expr)
    requires Residue(op, e, r)
    ensures Strings(op, r) == Strings(op, e)
  {
    if IsOp(op, e) {
      ResidueStrings(op, e.left, r.left);
      ResidueStrings(op, e.right, r.right);
    }
  }

  /** If no operand but flagged symbols is left, a residue is bare. */
  lemma {:induction false} ResidueBare(op: Op, e: Expr, r: Expr)
    requires Residue(op, e, r) && ConstFree(e) && !IsYesNo(e)
    requires forall z | !Flagged(z) :: Count(op, r, z) == 0
    ensures Bare(op, r)
  {
    if IsOp(op, e) {
      forall z | !Flagged(z) ensures Count(op, r.left, z) == 0 && Count(op, r.right, z) == 0 {
        CountBin(op, r.left, r.right, z);
      }
      ResidueBare(op, e.left, r.left);
      ResidueBare(op, e.right, r.right);
    } else {
      CountLeaf(op, r, Shape(r));
    }
  }

  /** What a bare group folds to: the neutral constant, or its only string. */
  lemma {:induction false} BareFolds(op: Op, r: Expr) returns (s: Symbol)
    requires Bare(op, r) && Strings(op, r) <= 1
    ensures EliminateYn(r) == Sym(s)
    ensures Strings(op, r) == 0 ==> s == Neutral(op)
    ensures Strings(op, r) == 1 ==> s.Literal? && Count(op, r, Atom(s)) == 1
  {
    if IsOp(op, r) {
      assert EliminateYn(r) == FoldConst(op, EliminateYn(r.left), EliminateYn(r.right));
      var x := BareFolds(op, r.left);
      var y := BareFolds(op, r.right);
      if Strings(op, r.left) == 0 {
        s := y;
        FoldPair(op, x, y);
        if s.Literal? { StringsCount(op, r.left, Atom(s)); }
      } else {
        s := x;
        FoldPair(op, x, y);
        StringsCount(op, r.right, Atom(s));
      }
      CountBin(op, r.left, r.right, Atom(s));
    } else {
      s := r.sym;
      CountLeaf(op, r, Atom(s));
    }
  }

  lemma FoldPair(op: Op, x: Symbol, y: Symbol)
    requires (x == Neutral(op) && (y == Neutral(op) || y.Literal?)) || (x.Literal? && y == Neutral(op))
    ensures FoldConst(op, Sym(x), Sym(y)) == Sym(if x == Neutral(op) then y else x)
  {}

  lemma {:induction false} StringsCount(op: Op, e: Expr, z: Canon)
    requires IsString(z)
    ensures Count(op, e, z) <= Strings(op, e)
  {
    if IsOp(op, e) {
      StringsCount(op, e.left, z);
      StringsCount(op, e.right, z);
      CountBin(op, e.left, e.right, z);
    } else {
      CountLeaf(op, e, z);
    }
  }

  lemma {:induction false} TwoStrings(op: Op, e: Expr, z: Canon, w: Canon)
    requires IsString(z) && IsString(w) && z != w
    ensures Count(op, e, z) + Count(op, e, w) <= Strings(op, e)
  {
    if IsOp(op, e) {
      TwoStrings(op, e.left, z, w);
      TwoStrings(op, e.right, z, w);
      CountBin(op, e.left, e.right, z);
      CountBin(op, e.left, e.right, w);
    } else {
      CountLeaf(op, e, z);
      CountLeaf(op, e, w);
    }
  }

  /** Bare groups with the same strings fold to the same symbol. */
  lemma SameFold(op: Op, a: Expr, b: Expr)
    requires Bare(op, a) && Bare(op, b) && Strings(op, a) <= 1 && Strings(op, b) <= 1
    requires forall z | IsString(z) :: Count(op, a, z) == Count(op, b, z)
    ensures EliminateYn(a).Sym? && EliminateYn(a) == EliminateYn(b)
  {
    var s := BareFolds(op, a);
    var t := BareFolds(op, b);
    if Strings(op, a) == 1 { StringsCount(op, b, Atom(s)); }
    if Strings(op, b) == 1 { StringsCount(op, a, Atom(t)); }
    if Strings(op, a) == 1 && s != t { TwoStrings(op, a, Atom(s), Atom(t)); }
  }

  /** A residue that folds to one symbol has nothing else left, and that symbol once unless it is the neutral constant. */
  lemma {:induction false} FoldLeaves(op: Op, e: Expr, r: Expr, z: Canon)
    requires Residue(op, e, r) && ConstFree(e) && !IsYesNo(e) && z != Atom(Neutral(op))
    ensures EliminateYn(r) != Sym(Absorbing(op))
    ensures EliminateYn(r).Sym? ==> Count(op, r, z) == if z == Shape(EliminateYn(r)) then 1 else 0
  {
    if IsOp(op, e) {
      FoldLeaves(op, e.left, r.left, z);
      FoldLeaves(op, e.right, r.right, z);
      CountBin(op, r.left, r.right, z);
    } else {
      ConstFreeKept(e);
      CountLeaf(op, r, z);
    }
  }

  lemma {:induction false} NoConstants(op: Op, e: Expr, z: Canon)
    requires ConstFree(e) && !IsYesNo(e) && (z == Atom(SymYes) || z == Atom(SymNo))
    ensures Count(op, e, z) == 0
  {
    if IsOp(op, e) {
      NoConstants(op, e.left, z);
      NoConstants(op, e.right, z);
      CountBin(op, e.left, e.right, z);
    } else {
      CountLeaf(op, e, z);
    }
  }

  /** Groups with the same operands compare equal. */
  lemma {:induction false} GroupsMatch(op: Op, e1: Expr, e2: Expr)
    requires IsOp(op, e1) && IsOp(op, e2) && ConstFree(e1) && ConstFree(e2) && Groups(e1) && Groups(e2)
    requires Operands(op, e1) == Operands(op, e2)
    ensures ExprEq(e1, e2)
    decreases Size(e1) + Size(e2), 2
  {
    var (a, b) := EliminateSlots(op, e1, e2);
    assert EliminateCommon(e1, e2) == (a, b);
    ResidueSelf(op, e1);
    ResidueSelf(op, e2);
    SlotsResidue(op, e1, e2, e1, e2);
    forall z | !Flagged(z) || IsString(z)
      ensures Left(z, Count(op, e1, z), Count(op, e2, z), Count(op, a, z), Count(op, b, z))
    {
      SlotsLeft(op, e1, e2, e1, e2, z);
    }
    ResidueBare(op, e1, a);
    ResidueBare(op, e2, b);
    ResidueStrings(op, e1, a);
    ResidueStrings(op, e2, b);
    SameFold(op, a, b);
  }

  /** Groups that compare equal have the same operands. */
  lemma {:induction false} MatchedGroups(op: Op, e1: Expr, e2: Expr)
    requires IsOp(op, e1) && IsOp(op, e2) && ConstFree(e1) && ConstFree(e2) && Groups(e1) && Groups(e2)
    requires ExprEq(e1, e2)
    ensures Operands(op, e1) == Operands(op, e2)
    decreases Size(e1) + Size(e2), 2
  {
    var (a, b) := EliminateSlots(op, e1, e2);
    assert EliminateCommon(e1, e2) == (a, b);
    ResidueSelf(op, e1);
    ResidueSelf(op, e2);
    SlotsResidue(op, e1, e2, e1, e2);
    forall z ensures Operands(op, e1)[z] == Operands(op, e2)[z] {
      SlotsLeft(op, e1, e2, e1, e2, z);
      SameCount(op, e1, e2, a, b, z);
    }
  }

  lemma SameCount(op: Op, e1: Expr, e2: Expr, a: Expr, b: Expr, z: Canon)
    requires ConstFree(e1) && ConstFree(e2) && !IsYesNo(e1) && !IsYesNo(e2) && Residue(op, e1, a) && Residue(op, e2, b)
    requires EliminateYn(a).Sym? && EliminateYn(a) == EliminateYn(b)
    requires Left(z, Count(op, e1, z), Count(op, e2, z), Count(op, a, z), Count(op, b, z))
    ensures Count(op, e1, z) == Count(op, e2, z)
  {
    if z == Atom(SymYes) || z == Atom(SymNo) {
      NoConstants(op, e1, z);
      NoConstants(op, e2, z);
    } else {
      FoldLeaves(op, e1, a, z);
      FoldLeaves(op, e2, b, z);
    }
  }

  lemma {:induction false} ShapeDecides(e1: Expr, e2: Expr)
    requires ConstFree(e1) && ConstFree(e2) && Groups(e1) && Groups(e2)
    ensures ExprEq(e1, e2) <==> Shape(e1) == Shape(e2)
    decreases Size(e1) + Size(e2), 3
  {
    if e1.Not? && e2.Not? {
      ShapeDecides(e1.arg, e2.arg);
    } else if e1.Bin? && e2.Bin? && e1.op == e2.op {
      if ExprEq(e1, e2) { MatchedGroups(e1.op, e1, e2); }
      if Shape(e1) == Shape(e2) { GroupsMatch(e1.op, e1, e2); }
    }
  }

  /** `expr_eq` without y/n operands: the same operands at every depth, in any order and grouping, and no group with two
      strings. */
  lemma {:induction false} ExprEqExactly(e1: Expr, e2: Expr)
    requires ConstFree(e1) && ConstFree(e2)
    ensures ExprEq(e1, e2) <==> Shape(e1) == Shape(e2) && Groups(e1) && Groups(e2)
  {
    if ExprEq(e1, e2) { EqualGroups(e1, e2); }
    if Groups(e1) && Groups(e2) { ShapeDecides(e1, e2); }
  }

  /** For instance `a && b` and `b && a`, or `(a && b) && c` and `a && (b && c)`, for any operands. */
  lemma ShapeInstances(op: Op, a: Expr, b: Expr, c: Expr)
    ensures Shape(Bin(op, a, b)) == Shape(Bin(op, b, a))
    ensures Shape(Bin(op, Bin(op, a, b), c)) == Shape(Bin(op, a, Bin(op, b, c)))
  {
    assert Operands(op, Bin(op, a, b)) == Operands(op, Bin(op, b, a));
    assert Operands(op, Bin(op, Bin(op, a, b), c)) == Operands(op, Bin(op, a, Bin(op, b, c)));
  }

  // ----- absorption, the second reason for nesting -----

  /** A single operand is taken out together with the first equal one, or nothing is. */
  lemma {:induction false} SingleSlot(op: Op, e1: Expr, e2: Expr)
    requires !IsOp(op, e2)
    ensures EliminateSlots(op, e1, e2) == (e1, e2) || EliminateSlots(op, e1, e2).1 == Sym(Neutral(op))
  {
    if IsOp(op, e1) {
      SingleSlot(op, e1.left, e2);
      SingleSlot(op, e1.right, EliminateSlots(op, e1.left, e2).1);
    }
  }

  lemma {:induction false} IncludedGone(op: Op, e1: Expr, e2: Expr)
    requires ConstFree(e1) && ConstFree(e2) && Groups(e1) && Groups(e2) && !IsYesNo(e2)
    requires Strings(op, e2) == 0 && Operands(op, e2) <= Operands(op, e1)
    ensures EliminateYn(EliminateSlots(op, e1, e2).1) == Sym(Neutral(op))
  {
    var (a, b) := EliminateSlots(op, e1, e2);
    ResidueSelf(op, e1);
    ResidueSelf(op, e2);
    SlotsResidue(op, e1, e2, e1, e2);
    ResidueStrings(op, e2, b);
    forall z | !Flagged(z) ensures Count(op, b, z) == 0 {
      SlotsLeft(op, e1, e2, e1, e2, z);
      assert Operands(op, e2)[z] <= Operands(op, e1)[z];
    }
    ResidueBare(op, e2, b);
    var s := BareFolds(op, b);
  }

  lemma {:induction false} GoneIncluded(op: Op, e1: Expr, e2: Expr)
    requires ConstFree(e1) && ConstFree(e2) && Groups(e1) && Groups(e2) && !IsYesNo(e2)
    requires EliminateYn(EliminateSlots(op, e1, e2).1) == Sym(Neutral(op))
    ensures Strings(op, e2) == 0 && Operands(op, e2) <= Operands(op, e1)
  {
    var (a, b) := EliminateSlots(op, e1, e2);
    ResidueSelf(op, e1);
    ResidueSelf(op, e2);
    SlotsResidue(op, e1, e2, e1, e2);
    forall z ensures Operands(op, e2)[z] <= Operands(op, e1)[z] {
      SlotsLeft(op, e1, e2, e1, e2, z);
      GoneCount(op, e1, e2, a, b, z);
    }
    ResidueFolds(op, e2, b);
  }

  lemma GoneCount(op: Op, e1: Expr, e2: Expr, a: Expr, b: Expr, z: Canon)
    requires ConstFree(e2) && !IsYesNo(e2) && Residue(op, e2, b) && EliminateYn(b) == Sym(Neutral(op))
    requires Left(z, Count(op, e1, z), Count(op, e2, z), Count(op, a, z), Count(op, b, z))
    ensures Count(op, e2, z) <= Count(op, e1, z)
  {
    if z == Atom(SymYes) || z == Atom(SymNo) { NoConstants(op, e2, z); } else { FoldLeaves(op, e2, b, z); }
  }

  /** `expr_eliminate_eq` reduces the second expression to `y` if and only if its AND operands, none a string, are all
      among those of the first. */
  lemma {:induction false} AbsorbedExactly(e1: Expr, e2: Expr)
    requires IsOp(And, e1) && ConstFree(e1) && ConstFree(e2) && Groups(e1) && Groups(e2) && !IsYesNo(e2)
    ensures EliminateEq(e1, e2).1 == Sym(SymYes) <==>
      Strings(And, e2) == 0 && Operands(And, e2) <= Operands(And, e1)
  {
    var (a, b) := EliminateSlots(And, e1, e2);
    if EliminateYn(b) == Sym(SymYes) { GoneIncluded(And, e1, e2); }
    if Strings(And, e2) == 0 && Operands(And, e2) <= Operands(And, e1) { IncludedGone(And, e1, e2); }
    if IsOp(Or, b) {
      SingleSlot(And, e1, e2);
      assert (a, b) == (e1, e2);
      ResidueSelf(Or, e1);
      ResidueSelf(Or, e2);
      SlotsResidue(Or, e1, e2, e1, e2);
      FoldLeaves(Or, e2, EliminateSlots(Or, e1, e2).1, Atom(SymMod));
      FoldLeaves(And, e2, b, Atom(SymMod)) by { ResidueSelf(And, e2); }
      ConstFreeKept(e2);
    } else {
      assert EliminateCommon(e1, e2) == (a, b);
    }
  }

  // ----- extraction, the test for complements -----

  lemma {:induction false} FirstGone(op: Op, e1: Expr, e2: Expr)
    requires ConstFree(e1) && ConstFree(e2) && Groups(e1) && Groups(e2) && !IsYesNo(e1)
    requires Strings(op, e1) == 0 && Operands(op, e1) <= Operands(op, e2)
    ensures EliminateYn(EliminateSlots(op, e1, e2).0) == Sym(Neutral(op))
  {
    var (a, b) := EliminateSlots(op, e1, e2);
    ResidueSelf(op, e1);
    ResidueSelf(op, e2);
    SlotsResidue(op, e1, e2, e1, e2);
    ResidueStrings(op, e1, a);
    forall z | !Flagged(z) ensures Count(op, a, z) == 0 {
      SlotsLeft(op, e1, e2, e1, e2, z);
      assert Operands(op, e1)[z] <= Operands(op, e2)[z];
    }
    ResidueBare(op, e1, a);
    var s := BareFolds(op, a);
  }

  lemma {:induction false} GoneFirst(op: Op, e1: Expr, e2: Expr)
    requires ConstFree(e1) && ConstFree(e2) && Groups(e1) && Groups(e2) && !IsYesNo(e1)
    requires EliminateYn(EliminateSlots(op, e1, e2).0) == Sym(Neutral(op))
    ensures Operands(op, e1) <= Operands(op, e2)
  {
    var (a, b) := EliminateSlots(op, e1, e2);
    ResidueSelf(op, e1);
    ResidueSelf(op, e2);
    SlotsResidue(op, e1, e2, e1, e2);
    forall z ensures Operands(op, e1)[z] <= Operands(op, e2)[z] {
      SlotsLeft(op, e1, e2, e1, e2, z);
      GoneCount(op, e2, e1, b, a, z);
    }
  }

  /** The operands of the `op` group are no strings and no deciding constants. */
  predicate Ordinary(op: Op, e: Expr) {
    if IsOp(op, e) then Ordinary(op, e.left) && Ordinary(op, e.right)
    else e.Sym? && e.sym.IsYesOrNoFlagged() ==> e.sym == Neutral(op)
  }

  lemma {:induction false} PlainOrdinary(op: Op, e: Expr)
    requires ConstFree(e) && !IsYesNo(e) && Strings(op, e) == 0
    ensures Ordinary(op, e)
  {
    if IsOp(op, e) {
      PlainOrdinary(op, e.left);
      PlainOrdinary(op, e.right);
    }
  }

  /** What both do with two operands. */
  lemma ExtractionLeaf(op: Op, acc: Option<Expr>, e1: Expr, e2: Expr)
    requires !IsOp(op, e1) && !IsOp(op, e2) && Ordinary(op, e1) && Ordinary(op, e2)
    ensures Alike(op, acc, e1, e2, ExtractSlots(op, acc, e1, e2), EliminateSlots(op, e1, e2))
  {
    if e1.Sym? && e1 == e2 && e1.sym.IsYesOrNoFlagged() { assert ExprEq(e1, e2); }
  }

  predicate Alike(op: Op, acc: Option<Expr>, e1: Expr, e2: Expr, x: Extraction, r: (Expr, Expr)) {
    && x.rest1 == r.0 && x.rest2 == r.1 && Ordinary(op, r.0) && Ordinary(op, r.1)
    && (acc.Some? ==> x.common.Some?) && (x.common.None? ==> r.0 == e1 && r.1 == e2)
  }

  /** On such groups extraction leaves what elimination leaves. */
  lemma {:induction false} ExtractionLeaves(op: Op, acc: Option<Expr>, e1: Expr, e2: Expr)
    requires Ordinary(op, e1) && Ordinary(op, e2)
    ensures Alike(op, acc, e1, e2, ExtractSlots(op, acc, e1, e2), EliminateSlots(op, e1, e2))
    decreases Size(e1) + Size(e2)
  {
    SizePositive(e1);
    SizePositive(e2);
    if IsOp(op, e1) {
      var x := ExtractSlots(op, acc, e1.left, e2);
      ExtractionLeaves(op, acc, e1.left, e2);
      ExtractionLeaves(op, x.common, e1.right, x.rest2);
    } else if IsOp(op, e2) {
      var x := ExtractSlots(op, acc, e1, e2.left);
      ExtractionLeaves(op, acc, e1, e2.left);
      ExtractionLeaves(op, x.common, x.rest1, e2.right);
    } else {
      ExtractionLeaf(op, acc, e1, e2);
    }
  }

  /** Extraction folds its first rest to the neutral constant exactly if elimination does. */
  lemma {:induction false} ExtractedFolds(op: Op, e1: Expr, e2: Expr)
    requires Ordinary(op, e1) && Ordinary(op, e2) && IsOp(op, e1) && ConstFree(e1)
    ensures ExtractEq(op, e1, e2).rest1 == Sym(Neutral(op)) <==> EliminateYn(EliminateSlots(op, e1, e2).0) == Sym(Neutral(op))
  {
    ExtractionLeaves(op, None, e1, e2);
    ConstFreeKept(e1);
  }

  /** Extraction uses up the first group if and only if all its operands are among those of the second. */
  lemma {:induction false} ExtractedExactly(op: Op, e1: Expr, e2: Expr)
    requires ConstFree(e1) && ConstFree(e2) && Groups(e1) && Groups(e2) && !IsYesNo(e2)
    requires IsOp(op, e1) && Strings(op, e1) == 0 && Strings(op, e2) == 0
    ensures ExtractEq(op, e1, e2).rest1 == Sym(Neutral(op)) <==> Operands(op, e1) <= Operands(op, e2)
  {
    PlainOrdinary(op, e1);
    PlainOrdinary(op, e2);
    ExtractedFolds(op, e1, e2);
    if ExtractEq(op, e1, e2).rest1 == Sym(Neutral(op)) {
      GoneFirst(op, e1, e2);
    } else if Operands(op, e1) <= Operands(op, e2) {
      FirstGone(op, e1, e2);
    }
  }
}
