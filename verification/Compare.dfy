/** `expr_trans_bool`, `expr_trans_compare`, `expr_contains_symbol` and `expr_depends_symbol`. */
module Comparison {
  import opened Common
  import opened Expressions
  import opened Joining

  // ----- expr_trans_bool -----

  /** `FOO != n` becomes `FOO` for a tristate FOO. */
  function TransBool(e: Expr): Expr {
    match e
    case Bin(op, l, r) => Bin(op, TransBool(l), TransBool(r))
    case Not(a) => Not(TransBool(a))
    case Cmp(Unequal, l, SymNo) => if l.Type() == Tristate then Sym(l) else e
    case _ => e
  }

  /** On negation normal forms the rewrite is invisible once `m` is promoted to `y`. */
  lemma {:induction false} TransBoolPromoted(e: Expr, env: Assignment)
    requires WellTyped(env) && Nnf(e)
    ensures Promote(Value(TransBool(e), env)) == Promote(Value(e, env))
  {
    match e
    case Bin(op, l, r) =>
      TransBoolPromoted(l, env);
      TransBoolPromoted(r, env);
      PromoteApply(op, Value(l, env), Value(r, env));
      PromoteApply(op, Value(TransBool(l), env), Value(TransBool(r), env));
    case Cmp(Unequal, l, SymNo) =>
      if l.Type() == Tristate { CmpMeaning(Unequal, l, SymNo, env); }
    case _ =>
  }

  lemma PromoteApply(op: Op, a: Tri, b: Tri)
    ensures Promote(Apply(op, a, b)) == Apply(op, Promote(a), Promote(b))
  {}

  /** Under a NOT it would be visible: !(FOO != n) and !FOO differ when FOO is m. */
  lemma TransBoolUnderNot(foo: Symbol, env: Assignment)
    requires WellTyped(env) && foo.Type() == Tristate
    ensures var e := Not(Cmp(Unequal, foo, SymNo));
      Promote(Value(TransBool(e), env)) == Promote(Value(e, env)) <==> env(foo).tri != Mod
  {
    CmpMeaning(Unequal, foo, SymNo, env);
    assert TransBool(Not(Cmp(Unequal, foo, SymNo))) == Not(Sym(foo));
    assert Value(Not(Sym(foo)), env) == Negate(Value(Sym(foo), env));
  }

  // ----- expr_trans_compare -----

  function NotIf(rel: Rel, e: Expr): Expr { if rel == Unequal then Not(e) else e }

  /** `expr_trans_compare` on a present expression. Against anything but y and n, AND and OR come back
      uncompared, and a comparison against a target that is not y, m or n yields no expression. */
  function TransCompare(e: Expr, rel: Rel, target: Symbol): (r: Option<Expr>)
    ensures target in {SymYes, SymNo} ==> r.Some?
  {
    match e
    case Bin(op, l, r) =>
      if target in {SymYes, SymNo} then
        var x := TransCompare(l, Equal, target).value;
        var y := TransCompare(r, Equal, target).value;
        Some(NotIf(rel, Bin(if target == SymYes then op else Dual(op), x, y)))
      else Some(NotIf(rel, e))
    case Not(a) => TransCompare(a, Flip(rel), target)
    case Cmp(_, _, _) =>
      (match target
       case SymYes => Some(NotIf(rel, e))
       case SymMod => Some(Sym(if rel == Equal then SymNo else SymYes))
       case SymNo => Some(NotIf(Flip(rel), e))
       case _ => None)
    case Sym(s) => Some(Cmp(rel, s, target))
  }

  /** A missing expression counts as the target itself. */
  function TransCompareOpt(e: Option<Expr>, rel: Rel, target: Symbol): Option<Expr> {
    match e
    case None => Some(NotIf(rel, Sym(target)))
    case Some(x) => TransCompare(x, rel, target)
  }

  /** All operands are boolean or tristate symbols or y/m/n. */
  predicate Logical(e: Expr) {
    match e
    case Sym(s) => s.IsLogic() || s in {SymYes, SymMod, SymNo}
    case Cmp(_, _, _) => true
    case Not(a) => Logical(a)
    case Bin(_, l, r) => Logical(l) && Logical(r)
  }

  /** No operand of a NOT is `m`. */
  predicate DefiniteNots(e: Expr, env: Assignment) {
    match e
    case Sym(_) => true
    case Cmp(_, _, _) => true
    case Not(a) => Value(a, env) != Mod && DefiniteNots(a, env)
    case Bin(_, l, r) => DefiniteNots(l, env) && DefiniteNots(r, env)
  }

  function Truth(b: bool): Tri { if b then Yes else No }

  /** What a comparison with y or n should evaluate to. */
  ghost predicate ComparesRight(e: Expr, rel: Rel, target: Symbol, env: Assignment)
    requires target in {SymYes, SymNo}
  {
    Value(TransCompare(e, rel, target).value, env) == Truth((Value(e, env) == env(target).tri) == (rel == Equal))
  }

  /** The value of `e` as a comparison with `t` (y or n) sees it: a negated `m` counts as `t`, and a symbol that is
      not boolean or tristate counts as `t` or its opposite, by its string. */
  function Read(e: Expr, t: Tri, env: Assignment): Tri {
    match e
    case Sym(s) =>
      if Logical(e) then env(s).tri
      else if StringValue(s, env(s)) == TriName(t) then t else Negate(t)
    case Cmp(_, _, _) => Value(e, env)
    case Not(a) => var v := Read(a, t, env); if v == Mod then t else Negate(v)
    case Bin(op, l, r) => Apply(op, Read(l, t, env), Read(r, t, env))
  }

  /** What the comparison evaluates to, for every expression: the question is asked of `Read`. */
  lemma {:induction false} TransCompareReads(e: Expr, rel: Rel, target: Symbol, env: Assignment)
    requires WellTyped(env) && target in {SymYes, SymNo}
    ensures var t := env(target).tri;
      Value(TransCompare(e, rel, target).value, env) == Truth((Read(e, t, env) == t) == (rel == Equal))
  {
    match e
    case Sym(s) =>
      if s.IsLogic() { CmpMeaning(rel, s, target, env); } else if Logical(e) { ConstDistinct(s, target, env); }
    case Cmp(_, _, _) =>
    case Not(a) => TransCompareReads(a, Flip(rel), target, env);
    case Bin(op, l, r) =>
      TransCompareReads(l, Equal, target, env);
      TransCompareReads(r, Equal, target, env);
      var x := TransCompare(l, Equal, target).value;
      var y := TransCompare(r, Equal, target).value;
      var b := Bin(if target == SymYes then op else Dual(op), x, y);
      assert Value(b, env) == Truth(Read(e, env(target).tri, env) == env(target).tri);
      assert TransCompare(e, rel, target).value == NotIf(rel, b);
  }

  /** On negation normal forms the two readings enclose the value. */
  lemma {:induction false} ReadBounds(e: Expr, env: Assignment)
    requires Nnf(e) && Logical(e)
    ensures Leq(Read(e, No, env), Value(e, env)) && Leq(Value(e, env), Read(e, Yes, env))
  {
    if e.Bin? {
      ReadBounds(e.left, env);
      ReadBounds(e.right, env);
    }
  }

  lemma {:induction false} ReadDefinite(e: Expr, t: Tri, env: Assignment)
    requires Logical(e) && DefiniteNots(e, env)
    ensures Read(e, t, env) == Value(e, env)
  {
    match e
    case Not(a) => ReadDefinite(a, t, env);
    case Bin(_, l, r) => ReadDefinite(l, t, env); ReadDefinite(r, t, env);
    case _ =>
  }

  /** The comparison comes out right if and only if value and reading agree on being the target. */
  lemma {:induction false} TransCompareExactly(e: Expr, rel: Rel, target: Symbol, env: Assignment)
    requires WellTyped(env) && target in {SymYes, SymNo}
    ensures var t := env(target).tri;
      ComparesRight(e, rel, target, env) <==> (Read(e, t, env) == t <==> Value(e, env) == t)
  {
    TransCompareReads(e, rel, target, env);
  }

  lemma {:induction false} TransCompareValue(e: Expr, rel: Rel, target: Symbol, env: Assignment)
    requires WellTyped(env) && target in {SymYes, SymNo}
    requires Logical(e) && DefiniteNots(e, env)
    ensures ComparesRight(e, rel, target, env)
  {
    TransCompareExactly(e, rel, target, env);
    ReadDefinite(e, env(target).tri, env);
  }

  /** Under a NOT the comparison comes out right exactly when the operand is not `m`. */
  lemma {:induction false} TransCompareUnderNot(a: Expr, rel: Rel, target: Symbol, env: Assignment)
    requires WellTyped(env) && target in {SymYes, SymNo}
    requires Logical(a) && DefiniteNots(a, env)
    ensures ComparesRight(Not(a), rel, target, env) <==> Value(a, env) != Mod
  {
    TransCompareExactly(Not(a), rel, target, env);
    ReadDefinite(a, env(target).tri, env);
  }

  /** A missing condition is `y`. */
  lemma TransCompareMissing(rel: Rel, target: Symbol, env: Assignment)
    requires WellTyped(env) && target in {SymYes, SymNo}
    ensures Value(TransCompareOpt(None, rel, target).value, env) == Truth((Yes == env(target).tri) == (rel == Equal))
  {}

  // ----- expr_contains_symbol, expr_depends_symbol -----

  predicate ContainsSymbol(e: Expr, s: Symbol) {
    match e
    case Sym(t) => t == s
    case Cmp(_, l, r) => l == s || r == s
    case Not(a) => ContainsSymbol(a, s)
    case Bin(_, l, r) => ContainsSymbol(l, s) || ContainsSymbol(r, s)
  }

  predicate DependsSymbol(e: Expr, s: Symbol) {
    match e
    case Bin(And, l, r) => DependsSymbol(l, s) || DependsSymbol(r, s)
    case Sym(t) => t == s
    case Cmp(Equal, l, r) => l == s && (r == SymYes || r == SymMod)
    case Cmp(Unequal, l, r) => l == s && r == SymNo
    case _ => false
  }

  /** The value depends on no symbol that does not occur. */
  lemma {:induction false} ValueLocal(e: Expr, env: Assignment, env': Assignment)
    requires forall s | ContainsSymbol(e, s) :: env(s) == env'(s)
    ensures Value(e, env) == Value(e, env')
  {
    match e
    case Sym(s) => assert ContainsSymbol(e, s);
    case Cmp(_, l, r) => assert ContainsSymbol(e, l) && ContainsSymbol(e, r);
    case Not(a) =>
      assert forall s :: ContainsSymbol(a, s) ==> ContainsSymbol(e, s);
      ValueLocal(a, env, env');
    case Bin(_, l, r) =>
      assert forall s :: ContainsSymbol(l, s) ==> ContainsSymbol(e, s);
      assert forall s :: ContainsSymbol(r, s) ==> ContainsSymbol(e, s);
      ValueLocal(l, env, env');
      ValueLocal(r, env, env');
  }

  /** A dependency on a symbol makes the whole condition `n` when the symbol is `n`. */
  lemma {:induction false} DependsSymbolNo(e: Expr, s: Symbol, env: Assignment)
    requires WellTyped(env) && s.IsLogic() && DependsSymbol(e, s)
    requires env(s).tri == No
    ensures Value(e, env) == No
  {
    match e
    case Bin(And, l, r) =>
      if DependsSymbol(l, s) { DependsSymbolNo(l, s, env); } else { DependsSymbolNo(r, s, env); }
    case Cmp(rel, l, r) => CmpMeaning(rel, s, r, env);
    case _ =>
  }
}
