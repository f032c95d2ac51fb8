/** Three-valued logic, symbols and dependency expressions of the configuration engine. */
module Expressions {
  import opened Common

  /** `enum tristate`, ordered No < Mod < Yes. */
  datatype Tri = No | Mod | Yes

  function Rank(t: Tri): int {
    match t case No => 0 case Mod => 1 case Yes => 2
  }

  predicate Leq(a: Tri, b: Tri) { Rank(a) <= Rank(b) }

  function Min(a: Tri, b: Tri): Tri { if Rank(a) < Rank(b) then a else b }

  function Max(a: Tri, b: Tri): Tri { if Rank(a) > Rank(b) then a else b }

  function Negate(t: Tri): Tri {
    match t case No => Yes case Mod => Mod case Yes => No
  }

  /** A boolean symbol or its visibility is never `m`: `m` is promoted to `y`. */
  function Promote(t: Tri): Tri { if t == Mod then Yes else t }

  datatype SymbolType = Unknown | Boolean | Tristate | Int | Hex | Str

  /** Names of interned string constants; "y", "m" and "n" are the three built-in symbols. */
  type ConstName = s: string | s != "y" && s != "m" && s != "n" witness "x"

  datatype Symbol =
    | SymYes
    | SymMod
    | SymNo
    | Literal(name: ConstName)
    | Config(id: nat, ty: SymbolType)
  {
    function Type(): SymbolType {
      if Config? then ty else Unknown
    }

    /** flags & SYMBOL_CONST */
    predicate IsConst() { !Config? }

    /** flags & (SYMBOL_YES | SYMBOL_NO): an interned constant carries all three constant bits. */
    predicate IsYesOrNoFlagged() { SymYes? || SymNo? || Literal? }

    predicate IsLogic() { Type() == Boolean || Type() == Tristate }
  }

  datatype Op = And | Or

  function Dual(op: Op): Op { if op == And then Or else And }

  datatype Rel = Equal | Unequal

  function Flip(rel: Rel): Rel { if rel == Equal then Unequal else Equal }

  datatype Expr =
    | Sym(sym: Symbol)
    | Not(arg: Expr)
    | Cmp(rel: Rel, lhs: Symbol, rhs: Symbol)
    | Bin(op: Op, left: Expr, right: Expr)

  predicate IsOp(op: Op, e: Expr) { e.Bin? && e.op == op }

  /** The constant that leaves the other operand unchanged, and the one that decides the result. */
  function Neutral(op: Op): Symbol { if op == And then SymYes else SymNo }

  function Absorbing(op: Op): Symbol { if op == And then SymNo else SymYes }

  predicate IsYesNo(e: Expr) { e == Sym(SymYes) || e == Sym(SymNo) }

  /** `struct symbol_value`. */
  datatype SymbolValue = SymbolValue(str: string, tri: Tri)

  /** The current value of every symbol. */
  type Assignment = Symbol -> SymbolValue

  ghost predicate WellTyped(env: Assignment) {
    && env(SymYes) == SymbolValue("y", Yes)
    && env(SymMod) == SymbolValue("m", Mod)
    && env(SymNo) == SymbolValue("n", No)
    && (forall name: ConstName :: env(Literal(name)) == SymbolValue(name, No))
    && (forall id: nat :: env(Config(id, Boolean)).tri != Mod)
  }

  function TriName(t: Tri): string {
    match t case No => "n" case Mod => "m" case Yes => "y"
  }

  /** `sym_get_string_value` on a symbol of the given type. */
  function StringValue(s: Symbol, v: SymbolValue): string {
    if s.IsLogic() then TriName(v.tri) else v.str
  }

  function Apply(op: Op, a: Tri, b: Tri): Tri {
    if op == And then Min(a, b) else Max(a, b)
  }

  lemma ApplyAssoc(op: Op, a: Tri, b: Tri, c: Tri)
    ensures Apply(op, Apply(op, a, b), c) == Apply(op, a, Apply(op, b, c))
  {}

  lemma ApplySwap(op: Op, a: Tri, b: Tri, c: Tri)
    ensures Apply(op, Apply(op, a, b), c) == Apply(op, Apply(op, a, c), b)
  {}

  lemma ApplyExchange(op: Op, a: Tri, b: Tri, c: Tri, d: Tri)
    ensures Apply(op, Apply(op, a, b), Apply(op, c, d)) == Apply(op, Apply(op, a, c), Apply(op, b, d))
  {}

  function Unit(op: Op): Tri { if op == And then Yes else No }

  /** `expr_calc_value`. */
  function Value(e: Expr, env: Assignment): Tri {
    match e
    case Sym(s) => env(s).tri
    case Not(a) => Negate(Value(a, env))
    case Cmp(rel, l, r) =>
      if (StringValue(l, env(l)) == StringValue(r, env(r))) == (rel == Equal) then Yes else No
    case Bin(op, l, r) => Apply(op, Value(l, env), Value(r, env))
  }

  /** A missing expression means `y`. */
  function ValueOpt(e: Option<Expr>, env: Assignment): Tri {
    match e case None => Yes case Some(x) => Value(x, env)
  }

  function Size(e: Expr): nat {
    match e
    case Sym(_) => 1
    case Cmp(_, _, _) => 1
    case Not(a) => 1 + Size(a)
    case Bin(_, l, r) => 1 + Size(l) + Size(r)
  }

  lemma SizePositive(e: Expr)
    ensures Size(e) >= 1
  {}

  /** Negation normal form: NOT stands on symbols only. */
  predicate Nnf(e: Expr) {
    match e
    case Sym(_) => true
    case Cmp(_, _, _) => true
    case Not(a) => a.Sym?
    case Bin(_, l, r) => Nnf(l) && Nnf(r)
  }

  // ----- expr_eliminate_yn -----

  /** One AND/OR node whose operands are already simplified. */
  function FoldConst(op: Op, l: Expr, r: Expr): Expr {
    if l == Sym(Absorbing(op)) then Sym(Absorbing(op))
    else if l == Sym(Neutral(op)) then r
    else if r == Sym(Absorbing(op)) then Sym(Absorbing(op))
    else if r == Sym(Neutral(op)) then l
    else Bin(op, l, r)
  }

  /** `expr_eliminate_yn`: NOT and comparisons are left alone. */
  function EliminateYn(e: Expr): Expr {
    match e
    case Bin(op, l, r) => FoldConst(op, EliminateYn(l), EliminateYn(r))
    case _ => e
  }

  /** Some AND/OR node reachable without crossing NOT has a y/n constant as an operand. */
  predicate HasConstOperand(e: Expr) {
    match e
    case Bin(_, l, r) => IsYesNo(l) || IsYesNo(r) || HasConstOperand(l) || HasConstOperand(r)
    case _ => false
  }

  lemma {:induction false} EliminateYnValue(e: Expr, env: Assignment)
    requires WellTyped(env)
    ensures Value(EliminateYn(e), env) == Value(e, env)
  {
    if e.Bin? {
      EliminateYnValue(e.left, env);
      EliminateYnValue(e.right, env);
    }
  }

  lemma {:induction false} EliminateYnShape(e: Expr)
    ensures !HasConstOperand(EliminateYn(e))
    ensures Size(EliminateYn(e)) <= Size(e)
    ensures HasConstOperand(e) ==> Size(EliminateYn(e)) < Size(e)
    ensures !HasConstOperand(e) ==> EliminateYn(e) == e
    ensures Nnf(e) ==> Nnf(EliminateYn(e))
  {
    if e.Bin? {
      EliminateYnShape(e.left);
      EliminateYnShape(e.right);
      SizePositive(EliminateYn(e.left));
      SizePositive(EliminateYn(e.right));
    }
  }
}
