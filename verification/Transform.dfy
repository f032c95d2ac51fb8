/** `expr_transform`: negation normal form, with boolean comparisons turned into plain symbols. */
module Transformation {
  import opened Expressions

  /** Termination weight: it doubles under NOT, so pushing NOT inwards makes it smaller. */
  function Weight(e: Expr): nat {
    match e
    case Sym(_) => 1
    case Cmp(_, _, _) => 2
    case Not(a) => 2 * Weight(a)
    case Bin(_, l, r) => 1 + Weight(l) + Weight(r)
  }

  lemma WeightPositive(e: Expr)
    ensures Weight(e) >= 1
  {}

  /** De Morgan makes the weight smaller although the tree grows. */
  lemma DeMorganWeight(op: Op, l: Expr, r: Expr)
    ensures Weight(Bin(Dual(op), Not(l), Not(r))) < 2 * Weight(Bin(op, l, r))
  {
    assert Weight(Not(l)) == 2 * Weight(l);
    assert Weight(Not(r)) == 2 * Weight(r);
  }

  /** A comparison of a boolean symbol with a constant y/m/n. */
  function TransformCmp(rel: Rel, l: Symbol, r: Symbol): Expr {
    if l.Type() != Boolean then Cmp(rel, l, r)
    else match r
      case SymNo => if rel == Equal then Not(Sym(l)) else Sym(l)
      case SymMod => Sym(if rel == Equal then SymNo else SymYes)
      case SymYes => if rel == Equal then Sym(l) else Not(Sym(l))
      case _ => Cmp(rel, l, r)
  }

  /** NOT of a constant; NOT of any other symbol stays. */
  function TransformNotSym(s: Symbol): Expr {
    match s
    case SymYes => Sym(SymNo)
    case SymMod => Sym(SymMod)
    case SymNo => Sym(SymYes)
    case _ => Not(Sym(s))
  }

  /** `expr_transform`. After De Morgan and after a double negation it runs again on its own output. */
  function Transform(e: Expr): (r: Expr)
    ensures Weight(r) <= Weight(e)
    decreases Weight(e)
  {
    match e
    case Sym(_) => e
    case Cmp(rel, l, r) => TransformCmp(rel, l, r)
    case Bin(op, l, r) =>
      WeightPositive(l); WeightPositive(r);
      Bin(op, Transform(l), Transform(r))
    case Not(a) =>
      WeightPositive(a);
      match Transform(a)
      case Not(b) => WeightPositive(b); Transform(b)
      case Cmp(rel, l, r) => Cmp(Flip(rel), l, r)
      case Bin(op, l, r) => DeMorganWeight(op, l, r); Transform(Bin(Dual(op), Not(l), Not(r)))
      case Sym(s) => TransformNotSym(s)
  }

  lemma {:induction false} TransformCmpValue(rel: Rel, l: Symbol, r: Symbol, env: Assignment)
    requires WellTyped(env)
    ensures Value(TransformCmp(rel, l, r), env) == Value(Cmp(rel, l, r), env)
  {
    if l.Type() == Boolean {
      assert env(l).tri != Mod by { assert env(Config(l.id, Boolean)).tri != Mod; }
    }
  }

  /** Every rewriting step keeps the value on every well-typed assignment. */
  lemma {:induction false} TransformValue(e: Expr, env: Assignment)
    requires WellTyped(env)
    ensures Value(Transform(e), env) == Value(e, env)
    decreases Weight(e)
  {
    match e
    case Sym(_) =>
    case Cmp(rel, l, r) => TransformCmpValue(rel, l, r, env);
    case Bin(op, l, r) =>
      WeightPositive(l); WeightPositive(r);
      TransformValue(l, env);
      TransformValue(r, env);
    case Not(a) =>
      WeightPositive(a);
      TransformValue(a, env);
      match Transform(a) {
        case Not(b) => WeightPositive(b); TransformValue(b, env);
        case Cmp(rel, l, r) =>
        case Bin(op, l, r) => DeMorganWeight(op, l, r); TransformValue(Bin(Dual(op), Not(l), Not(r)), env);
        case Sym(s) =>
      }
  }

  /** The normal form: NOT on non-constant symbols only, no boolean symbol compared with y/m/n. */
  predicate Normal(e: Expr) {
    match e
    case Sym(_) => true
    case Cmp(_, l, r) => l.Type() == Boolean ==> r.Config? || r.Literal?
    case Not(a) => a.Sym? && (a.sym.Config? || a.sym.Literal?)
    case Bin(_, l, r) => Normal(l) && Normal(r)
  }

  lemma {:induction false} TransformNormal(e: Expr)
    ensures Normal(Transform(e))
    decreases Weight(e)
  {
    match e
    case Sym(_) =>
    case Cmp(rel, l, r) =>
    case Bin(op, l, r) =>
      WeightPositive(l); WeightPositive(r);
      TransformNormal(l);
      TransformNormal(r);
    case Not(a) =>
      WeightPositive(a);
      TransformNormal(a);
      match Transform(a) {
        case Not(b) => WeightPositive(b); TransformNormal(b);
        case Cmp(rel, l, r) =>
        case Bin(op, l, r) => DeMorganWeight(op, l, r); TransformNormal(Bin(Dual(op), Not(l), Not(r)));
        case Sym(s) =>
      }
  }

  /** The normal forms are exactly the fixed points. */
  lemma {:induction false} NormalIffFixed(e: Expr)
    ensures Normal(e) <==> Transform(e) == e
  {
    TransformNormal(e);
    if Normal(e) {
      match e {
        case Bin(_, l, r) => NormalIffFixed(l); NormalIffFixed(r);
        case _ =>
      }
    }
  }

  lemma {:induction false} TransformIdempotent(e: Expr)
    ensures Transform(Transform(e)) == Transform(e)
  {
    TransformNormal(e);
    NormalIffFixed(Transform(e));
  }

  lemma {:induction false} NormalImpliesNnf(e: Expr)
    requires Normal(e)
    ensures Nnf(e)
  {
    if e.Bin? {
      NormalImpliesNnf(e.left);
      NormalImpliesNnf(e.right);
    }
  }
}
