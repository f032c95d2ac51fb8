/** `expr_join_or` and `expr_join_and`: merging two operands of one AND/OR node. */
module Joining {
  import opened Common
  import opened Expressions
  import opened Equivalence

  /** The symbol the first operand speaks about. */
  function FirstSubject(e: Expr): Option<Symbol> {
    match e
    case Sym(s) => Some(s)
    case Cmp(_, l, _) => Some(l)
    case Not(Sym(s)) => Some(s)
    case Not(Cmp(_, l, _)) => Some(l)
    case _ => None
  }

  /** The symbol the second operand speaks about; NOT of a comparison is not looked into here. */
  function SecondSubject(e: Expr): Option<Symbol> {
    match e
    case Sym(s) => Some(s)
    case Cmp(_, l, _) => Some(l)
    case Not(Sym(s)) => Some(s)
    case _ => None
  }

  /** Both operands speak about one boolean or tristate symbol. */
  function Subject(e1: Expr, e2: Expr): Option<Symbol> {
    var s := FirstSubject(e1);
    if s.Some? && s == SecondSubject(e2) && s.value.IsLogic() then s else None
  }

  /** `e1` and `e2` compare their left symbol with `a` and `b`, in either order. */
  predicate Compares(rel: Rel, e1: Expr, e2: Expr, a: Symbol, b: Symbol) {
    && e1.Cmp? && e2.Cmp? && e1.rel == rel && e2.rel == rel
    && ((e1.rhs == a && e2.rhs == b) || (e1.rhs == b && e2.rhs == a))
  }

  /** One operand is a plain symbol, the other a comparison with `a`. */
  predicate SymbolWith(rel: Rel, e1: Expr, e2: Expr, a: Symbol) {
    || (e1.Sym? && e2.Cmp? && e2.rel == rel && e2.rhs == a)
    || (e2.Sym? && e1.Cmp? && e1.rel == rel && e1.rhs == a)
  }

  /** `expr_join_or`; None when nothing applies. */
  function JoinOr(e1: Expr, e2: Expr): Option<Expr> {
    if ExprEq(e1, e2) then Some(e1)
    else match Subject(e1, e2)
      case None => None
      case Some(s) =>
        if s.Type() == Tristate && Compares(Equal, e1, e2, SymYes, SymMod) then Some(Cmp(Unequal, s, SymNo))
        else if s.Type() == Tristate && Compares(Equal, e1, e2, SymYes, SymNo) then Some(Cmp(Unequal, s, SymMod))
        else if s.Type() == Tristate && Compares(Equal, e1, e2, SymMod, SymNo) then Some(Cmp(Unequal, s, SymYes))
        else if s.Type() == Boolean && ((e1 == Not(Sym(s)) && e2.Sym?) || (e2 == Not(Sym(s)) && e1.Sym?)) then
          Some(Sym(SymYes))
        else None
  }

  /** (a = b) && (a != c) over constants b and c. */
  function JoinEqualUnequal(s: Symbol, b: Symbol, c: Symbol): Option<Expr> {
    if !b.IsConst() || !c.IsConst() then None
    else if b != c then Some(Cmp(Equal, s, b))
    else Some(Sym(SymNo))
  }

  /** `expr_join_and`. */
  function JoinAnd(e1: Expr, e2: Expr): Option<Expr> {
    if ExprEq(e1, e2) then Some(e1)
    else match Subject(e1, e2)
      case None => None
      case Some(s) =>
        if SymbolWith(Equal, e1, e2, SymYes) then Some(Cmp(Equal, s, SymYes))
        else if SymbolWith(Unequal, e1, e2, SymNo) then Some(Sym(s))
        else if SymbolWith(Unequal, e1, e2, SymMod) then Some(Cmp(Equal, s, SymYes))
        else if s.Type() != Tristate || !e1.Cmp? || !e2.Cmp? then None
        else if e1.rel == Equal && e2.rel == Unequal then JoinEqualUnequal(s, e1.rhs, e2.rhs)
        else if e1.rel == Unequal && e2.rel == Equal then JoinEqualUnequal(s, e2.rhs, e1.rhs)
        else if Compares(Unequal, e1, e2, SymYes, SymNo) then Some(Cmp(Equal, s, SymMod))
        else if Compares(Unequal, e1, e2, SymYes, SymMod) then Some(Cmp(Equal, s, SymNo))
        else if Compares(Unequal, e1, e2, SymMod, SymNo) then Some(Cmp(Equal, s, SymYes))
        else None
  }

  function Join(op: Op, e1: Expr, e2: Expr): Option<Expr> {
    if op == And then JoinAnd(e1, e2) else JoinOr(e1, e2)
  }

  /** What a comparison of a boolean or tristate symbol with a built-in constant means. */
  lemma CmpMeaning(rel: Rel, s: Symbol, c: Symbol, env: Assignment)
    requires WellTyped(env) && s.IsLogic()
    requires c in {SymYes, SymMod, SymNo}
    ensures Value(Cmp(rel, s, c), env) == (if (env(s).tri == env(c).tri) == (rel == Equal) then Yes else No)
  {
    assert TriName(env(s).tri)[0] == (match env(s).tri case No => 'n' case Mod => 'm' case Yes => 'y');
  }

  /** Distinct constants have distinct strings. */
  lemma ConstDistinct(b: Symbol, c: Symbol, env: Assignment)
    requires WellTyped(env) && b.IsConst() && c.IsConst()
    ensures StringValue(b, env(b)) == StringValue(c, env(c)) <==> b == c
  {
    assert "y"[0] != "m"[0] && "y"[0] != "n"[0] && "m"[0] != "n"[0];
  }

  lemma JoinOrValue(e1: Expr, e2: Expr, env: Assignment)
    requires WellTyped(env) && JoinOr(e1, e2).Some?
    ensures Value(JoinOr(e1, e2).value, env) == Max(Value(e1, env), Value(e2, env))
  {
    if ExprEq(e1, e2) {
      ExprEqSound(e1, e2, env);
    } else {
      var s := Subject(e1, e2).value;
      if s.Type() == Boolean {
        assert env(Config(s.id, Boolean)).tri != Mod;
      } else {
        CmpMeaning(Equal, s, e1.rhs, env);
        CmpMeaning(Equal, s, e2.rhs, env);
        CmpMeaning(Unequal, s, JoinOr(e1, e2).value.rhs, env);
      }
    }
  }

  lemma JoinEqualUnequalValue(s: Symbol, b: Symbol, c: Symbol, env: Assignment)
    requires WellTyped(env) && JoinEqualUnequal(s, b, c).Some?
    ensures Value(JoinEqualUnequal(s, b, c).value, env) == Min(Value(Cmp(Equal, s, b), env), Value(Cmp(Unequal, s, c), env))
  {
    ConstDistinct(b, c, env);
  }

  lemma JoinAndValue(e1: Expr, e2: Expr, env: Assignment)
    requires WellTyped(env) && JoinAnd(e1, e2).Some?
    ensures Value(JoinAnd(e1, e2).value, env) == Min(Value(e1, env), Value(e2, env))
  {
    if ExprEq(e1, e2) {
      ExprEqSound(e1, e2, env);
    } else {
      var s := Subject(e1, e2).value;
      if e1.Sym? || e2.Sym? {
        var cmp := if e1.Sym? then e2 else e1;
        CmpMeaning(cmp.rel, s, cmp.rhs, env);
        CmpMeaning(Equal, s, SymYes, env);
      } else if e1.rel == Equal && e2.rel == Unequal {
        JoinEqualUnequalValue(s, e1.rhs, e2.rhs, env);
      } else if e1.rel == Unequal && e2.rel == Equal {
        JoinEqualUnequalValue(s, e2.rhs, e1.rhs, env);
      } else {
        CmpMeaning(Unequal, s, e1.rhs, env);
        CmpMeaning(Unequal, s, e2.rhs, env);
        CmpMeaning(Equal, s, JoinAnd(e1, e2).value.rhs, env);
      }
    }
  }

  /** A join stands for both operands, on every well-typed assignment. */
  lemma JoinValue(op: Op, e1: Expr, e2: Expr, env: Assignment)
    requires WellTyped(env) && Join(op, e1, e2).Some?
    ensures Value(Join(op, e1, e2).value, env) == Apply(op, Value(e1, env), Value(e2, env))
  {
    if op == And { JoinAndValue(e1, e2, env); } else { JoinOrValue(e1, e2, env); }
  }

  /** It is no bigger than the first operand, keeps negation normal form and is no node of kind `op`. */
  lemma JoinShape(op: Op, e1: Expr, e2: Expr)
    requires Join(op, e1, e2).Some?
    ensures Size(Join(op, e1, e2).value) <= Size(e1)
    ensures Nnf(e1) ==> Nnf(Join(op, e1, e2).value)
    ensures !IsOp(op, e1) ==> !IsOp(op, Join(op, e1, e2).value)
  {
    SizePositive(e1);
  }

  // ----- what must join -----

  lemma JoinEqual(op: Op, e1: Expr, e2: Expr)
    requires ExprEq(e1, e2)
    ensures Join(op, e1, e2) == Some(e1)
  {}

  /** The third of y, m and n. */
  function Third(b: Symbol, c: Symbol): Symbol {
    if SymYes !in {b, c} then SymYes else if SymMod !in {b, c} then SymMod else SymNo
  }

  /** Two tests of one tristate symbol against different constants say all there is to say. */
  lemma JoinedTests(s: Symbol, b: Symbol, c: Symbol)
    requires s.Type() == Tristate && b in {SymYes, SymMod, SymNo} && c in {SymYes, SymMod, SymNo} && b != c
    ensures JoinOr(Cmp(Equal, s, b), Cmp(Equal, s, c)) == Some(Cmp(Unequal, s, Third(b, c)))
    ensures JoinAnd(Cmp(Unequal, s, b), Cmp(Unequal, s, c)) == Some(Cmp(Equal, s, Third(b, c)))
    ensures JoinAnd(Cmp(Equal, s, b), Cmp(Unequal, s, c)) == Some(Cmp(Equal, s, b))
    ensures JoinAnd(Cmp(Unequal, s, c), Cmp(Equal, s, b)) == Some(Cmp(Equal, s, b))
    ensures JoinAnd(Cmp(Equal, s, b), Cmp(Unequal, s, b)) == JoinAnd(Cmp(Unequal, s, b), Cmp(Equal, s, b)) == Some(Sym(SymNo))
  {}

  /** A logical symbol with a test of itself, in either order. */
  lemma JoinedSymbol(s: Symbol)
    requires s.IsLogic()
    ensures forall r | r in {(Cmp(Equal, s, SymYes), Cmp(Equal, s, SymYes)), (Cmp(Unequal, s, SymNo), Sym(s)), (Cmp(Unequal, s, SymMod), Cmp(Equal, s, SymYes))} ::
              JoinAnd(Sym(s), r.0) == JoinAnd(r.0, Sym(s)) == Some(r.1)
    ensures s.Type() == Boolean ==> JoinOr(Sym(s), Not(Sym(s))) == JoinOr(Not(Sym(s)), Sym(s)) == Some(Sym(SymYes))
  {}

  /** Tests of one tristate symbol against other constants: the stronger one, or a contradiction. */
  lemma JoinedConstants(s: Symbol, b: Symbol, c: Symbol)
    requires s.Type() == Tristate && b.IsConst() && c.IsConst()
    ensures JoinAnd(Cmp(Equal, s, b), Cmp(Unequal, s, c)) == Some(if b == c then Sym(SymNo) else Cmp(Equal, s, b))
    ensures JoinAnd(Cmp(Unequal, s, c), Cmp(Equal, s, b)) == Some(if b == c then Sym(SymNo) else Cmp(Equal, s, b))
  {}
}
