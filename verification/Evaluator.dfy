/** The demand-driven symbol evaluator: `sym_calc_visibility`, `sym_calc_value`, `sym_clear_all_valid`
    and `sym_set_tristate_value` over symbols that are neither choices nor choice values. */
module Evaluator {
  import opened Common
  import opened Expressions
  import opened Comparison
  import opened SymbolTable

  /** What the user set: `sym->user`, and SYMBOL_NEW while there is nothing set. */
  datatype Input = Input(user: SymbolValue, isNew: bool)

  const UNSET := Input(SymbolValue("", No), true)

  // ----- the plain meaning of one symbol, given the values of all others -----

  function AnyVisiblePrompt(props: seq<Property>, env: Assignment): Tri {
    if props == [] then No
    else
      var rest := AnyVisiblePrompt(props[..|props| - 1], env);
      var p := props[|props| - 1];
      if p.text then Max(rest, ValueOpt(p.visible, env)) else rest
  }

  predicate Deselected(d: SymbolDef, env: Assignment) {
    d.revDepInv.Some? && Value(d.revDepInv.value, env) == Yes
  }

  function Visibility(d: SymbolDef, env: Assignment): Tri {
    var tri := AnyVisiblePrompt(d.props, env);
    if Deselected(d, env) then No
    else if d.ty == Tristate then tri else Promote(tri)
  }

  function Selected(d: SymbolDef, env: Assignment): Tri {
    var tri := if d.revDep.Some? then Value(d.revDep.value, env) else No;
    if d.ty == Boolean then Promote(tri) else tri
  }

  /** `sym_get_default_prop`: the first default whose condition is not `n`. */
  function DefaultOf(props: seq<Property>, env: Assignment): Option<Property> {
    if props == [] then None
    else if props[0].ty == DefaultProp && ValueOpt(props[0].visible, env) != No then Some(props[0])
    else DefaultOf(props[1..], env)
  }

  function DefaultTri(d: SymbolDef, env: Assignment): Tri {
    match DefaultOf(d.props, env) case None => No case Some(p) => ValueOpt(p.expr, env)
  }

  /** The value a user setting (or the default) gives once it is cut down to the visibility and raised by selects. */
  function LogicTri(d: SymbolDef, inp: Input, env: Assignment): Tri {
    var visible, selected := Visibility(d, env), Selected(d, env);
    var tri :=
      if Deselected(d, env) then No
      else if Max(visible, selected) != No then
        Max(Min(if inp.isNew then DefaultTri(d, env) else inp.user.tri, visible), selected)
      else DefaultTri(d, env);
    if d.ty == Boolean then Promote(tri) else tri
  }

  function DefaultString(d: SymbolDef, env: Assignment): Option<string> {
    match DefaultOf(d.props, env)
    case Some(Property(_, _, _, Some(Sym(s)))) => Some(env(s).str)
    case _ => None
  }

  function Meaning(d: SymbolDef, inp: Input, env: Assignment): SymbolValue {
    match d.ty
    case Unknown => SymbolValue(d.name, No)
    case Boolean => SymbolValue("n", LogicTri(d, inp, env))
    case Tristate => SymbolValue("n", LogicTri(d, inp, env))
    case _ =>
      if Visibility(d, env) != No && !inp.isNew then SymbolValue(inp.user.str, No)
      else match DefaultString(d, env)
        case Some(str) => SymbolValue(str, No)
        case None => SymbolValue("", No)
  }

  /** SYMBOL_WRITE: the symbol goes into the configuration file. */
  predicate Written(d: SymbolDef, env: Assignment) {
    if d.ty in {Boolean, Tristate} then
      !Deselected(d, env) && (Max(Visibility(d, env), Selected(d, env)) != No || DefaultOf(d.props, env).Some?)
    else
      Visibility(d, env) != No || DefaultString(d, env).Some?
  }

  // ----- which symbols a definition looks at -----

  /** The evaluator reads the conditions of prompts and defaults, the default values, and the selects and deselects. */
  predicate References(d: SymbolDef, s: Symbol) {
    || Mentions(d.revDep, s) || Mentions(d.revDepInv, s)
    || exists p | p in d.props :: PropertyReads(p, s)
  }

  predicate PropertyReads(p: Property, s: Symbol) {
    || ((p.text || p.ty == DefaultProp) && Mentions(p.visible, s))
    || (p.ty == DefaultProp && Mentions(p.expr, s))
  }

  ghost predicate SameOn(d: SymbolDef, env: Assignment, env': Assignment) {
    forall s | References(d, s) :: env(s) == env'(s)
  }

  lemma ValueOptLocal(e: Option<Expr>, env: Assignment, env': Assignment)
    requires forall s | Mentions(e, s) :: env(s) == env'(s)
    ensures ValueOpt(e, env) == ValueOpt(e, env')
  {
    if e.Some? {
      assert forall s :: ContainsSymbol(e.value, s) ==> Mentions(e, s);
      ValueLocal(e.value, env, env');
    }
  }

  ghost predicate PropsAgree(props: seq<Property>, env: Assignment, env': Assignment) {
    forall p | p in props ::
      && (p.text || p.ty == DefaultProp ==> ValueOpt(p.visible, env) == ValueOpt(p.visible, env'))
      && (p.ty == DefaultProp ==> ValueOpt(p.expr, env) == ValueOpt(p.expr, env'))
  }

  lemma {:induction false} PromptLocal(props: seq<Property>, env: Assignment, env': Assignment)
    requires PropsAgree(props, env, env')
    ensures AnyVisiblePrompt(props, env) == AnyVisiblePrompt(props, env')
  {
    if props != [] {
      PromptLocal(props[..|props| - 1], env, env');
      assert props[|props| - 1] in props;
    }
  }

  lemma {:induction false} DefaultLocal(props: seq<Property>, env: Assignment, env': Assignment)
    requires PropsAgree(props, env, env')
    ensures DefaultOf(props, env) == DefaultOf(props, env')
    ensures var p := DefaultOf(props, env); p.Some? ==> p.value in props && p.value.ty == DefaultProp
  {
    if props != [] {
      assert props[0] in props;
      DefaultLocal(props[1..], env, env');
    }
  }

  /** The meaning of a symbol looks at the symbols its definition references and at no others. */
  lemma MeaningLocal(d: SymbolDef, inp: Input, env: Assignment, env': Assignment)
    requires SameOn(d, env, env')
    ensures Visibility(d, env) == Visibility(d, env') && Selected(d, env) == Selected(d, env')
    ensures Deselected(d, env) == Deselected(d, env') && DefaultTri(d, env) == DefaultTri(d, env')
    ensures Meaning(d, inp, env) == Meaning(d, inp, env') && Written(d, env) == Written(d, env')
  {
    ValueOptLocal(d.revDep, env, env');
    ValueOptLocal(d.revDepInv, env, env');
    forall p | p in d.props
      ensures p.text || p.ty == DefaultProp ==> ValueOpt(p.visible, env) == ValueOpt(p.visible, env')
      ensures p.ty == DefaultProp ==> ValueOpt(p.expr, env) == ValueOpt(p.expr, env')
    {
      assert forall s :: PropertyReads(p, s) ==> References(d, s);
      if p.text || p.ty == DefaultProp { ValueOptLocal(p.visible, env, env'); }
      if p.ty == DefaultProp { ValueOptLocal(p.expr, env, env'); }
    }
    PromptLocal(d.props, env, env');
    DefaultLocal(d.props, env, env');
    match DefaultOf(d.props, env) {
      case Some(Property(_, _, _, Some(Sym(s)))) =>
        assert PropertyReads(DefaultOf(d.props, env).value, s);
      case _ =>
    }
  }

  // ----- expr_trans_bool on the prompts of a symbol -----

  function TransBoolOpt(e: Option<Expr>): Option<Expr> {
    match e case None => None case Some(x) => Some(TransBool(x))
  }

  function TransBoolProps(props: seq<Property>): seq<Property> {
    if props == [] then []
    else
      var p := props[|props| - 1];
      TransBoolProps(props[..|props| - 1]) + [p.(visible := TransBoolOpt(p.visible))]
  }

  lemma PromptsSnoc(init: seq<Property>, p: Property, env: Assignment)
    ensures var v := AnyVisiblePrompt(init, env);
      AnyVisiblePrompt(init + [p], env) == if p.text then Max(v, ValueOpt(p.visible, env)) else v
  {
    assert (init + [p])[..|init|] == init;
  }

  lemma PromptPromoted(v: Option<Expr>, a: Tri, b: Tri, env: Assignment)
    requires WellTyped(env) && (v.Some? ==> Nnf(v.value)) && Promote(a) == Promote(b)
    ensures Promote(Max(a, ValueOpt(TransBoolOpt(v), env))) == Promote(Max(b, ValueOpt(v, env)))
  {
    if v.Some? { TransBoolPromoted(v.value, env); }
  }

  lemma {:induction false} TransBoolPrompts(props: seq<Property>, env: Assignment)
    requires WellTyped(env)
    requires forall p | p in props :: p.visible.Some? ==> Nnf(p.visible.value)
    ensures Promote(AnyVisiblePrompt(TransBoolProps(props), env)) == Promote(AnyVisiblePrompt(props, env))
  {
    if props != [] {
      var n := |props| - 1;
      var init, p := props[..n], props[n];
      var q := p.(visible := TransBoolOpt(p.visible));
      TransBoolPrompts(init, env);
      assert props == init + [p];
      PromptsSnoc(init, p, env);
      PromptsSnoc(TransBoolProps(init), q, env);
      PromptPromoted(p.visible, AnyVisiblePrompt(TransBoolProps(init), env), AnyVisiblePrompt(init, env), env);
    }
  }

  /** A symbol that is not tristate is exactly as visible with its prompt conditions rewritten. */
  lemma TransBoolVisibility(d: SymbolDef, env: Assignment)
    requires WellTyped(env) && d.ty != Tristate
    requires forall p | p in d.props :: p.visible.Some? ==> Nnf(p.visible.value)
    ensures Visibility(d.(props := TransBoolProps(d.props)), env) == Visibility(d, env)
  {
    TransBoolPrompts(d.props, env);
  }

  // ----- the whole table -----

  ghost predicate LooksBelow(defs: seq<SymbolDef>, rank: seq<nat>, d: SymbolDef, k: nat)
    requires |rank| == |defs|
  {
    forall s | References(d, s) :: Known(defs, s) && (s.Config? ==> rank[s.id] < k)
  }

  /** There are no choices and the evaluator's dependencies run downhill: no cycle among the symbols. */
  ghost predicate Acyclic(defs: seq<SymbolDef>, rank: seq<nat>) {
    && |rank| == |defs|
    && forall i | 0 <= i < |defs| :: !defs[i].choice && LooksBelow(defs, rank, defs[i], rank[i])
  }

  function ConstValue(s: Symbol): SymbolValue
    requires !s.Config?
  {
    match s
    case SymYes => SymbolValue("y", Yes)
    case SymMod => SymbolValue("m", Mod)
    case SymNo => SymbolValue("n", No)
    case Literal(name) => SymbolValue(name, No)
  }

  /** The values of all symbols of rank below `k`, by recursion over the rank and without any cache. */
  ghost function Below(defs: seq<SymbolDef>, rank: seq<nat>, inputs: seq<Input>, k: nat): Assignment
    requires |rank| == |defs| == |inputs|
  {
    (s: Symbol) =>
      if !s.Config? then ConstValue(s)
      else if Known(defs, s) && rank[s.id] < k then
        Meaning(defs[s.id], inputs[s.id], Below(defs, rank, inputs, rank[s.id]))
      else SymbolValue("", No)
  }

  /** The denotation of the configuration. */
  ghost function Denotation(defs: seq<SymbolDef>, rank: seq<nat>, inputs: seq<Input>): Assignment
    requires |rank| == |defs| == |inputs|
  {
    (s: Symbol) =>
      if !s.Config? then ConstValue(s)
      else if Known(defs, s) then Meaning(defs[s.id], inputs[s.id], Below(defs, rank, inputs, rank[s.id]))
      else SymbolValue("", No)
  }

  /** Every symbol has the value its definition gives it from the values of the others. */
  ghost predicate Solves(defs: seq<SymbolDef>, inputs: seq<Input>, env: Assignment)
    requires |inputs| == |defs|
  {
    && (forall s: Symbol | !s.Config? :: env(s) == ConstValue(s))
    && (forall i | 0 <= i < |defs| :: env(Config(i, defs[i].ty)) == Meaning(defs[i], inputs[i], env))
  }

  /** The denotation solves the equations of all symbols at once. */
  lemma DenotationSolves(defs: seq<SymbolDef>, rank: seq<nat>, inputs: seq<Input>)
    requires Acyclic(defs, rank) && |inputs| == |defs|
    ensures Solves(defs, inputs, Denotation(defs, rank, inputs))
  {
    var env := Denotation(defs, rank, inputs);
    forall i | 0 <= i < |defs|
      ensures env(Config(i, defs[i].ty)) == Meaning(defs[i], inputs[i], env)
    {
      var below := Below(defs, rank, inputs, rank[i]);
      assert SameOn(defs[i], below, env);
      MeaningLocal(defs[i], inputs[i], below, env);
    }
  }

  /** It is the only solution, so it does not depend on the order the ranks suggest. */
  lemma {:induction false} SolutionUnique(defs: seq<SymbolDef>, rank: seq<nat>, inputs: seq<Input>, env: Assignment, env': Assignment, i: nat)
    requires Acyclic(defs, rank) && |inputs| == |defs| && i < |defs|
    requires Solves(defs, inputs, env) && Solves(defs, inputs, env')
    ensures env(Config(i, defs[i].ty)) == env'(Config(i, defs[i].ty))
    decreases rank[i]
  {
    assert LooksBelow(defs, rank, defs[i], rank[i]);
    forall s | References(defs[i], s)
      ensures env(s) == env'(s)
    {
      if s.Config? { SolutionUnique(defs, rank, inputs, env, env', s.id); }
    }
    MeaningLocal(defs[i], inputs[i], env, env');
  }

  /** `j` is `i` or uses, directly or through other symbols, the value of `i`. */
  ghost predicate Affected(defs: seq<SymbolDef>, rank: seq<nat>, i: nat, j: nat)
    requires Acyclic(defs, rank) && i < |defs| && j < |defs|
    decreases rank[j]
  {
    assert LooksBelow(defs, rank, defs[j], rank[j]);
    i == j || exists s | References(defs[j], s) && s.Config? :: Affected(defs, rank, i, s.id)
  }

  lemma {:induction false} AffectedRank(defs: seq<SymbolDef>, rank: seq<nat>, i: nat, j: nat)
    requires Acyclic(defs, rank) && i < |defs| && j < |defs|
    requires Affected(defs, rank, i, j)
    ensures i == j || rank[i] < rank[j]
    decreases rank[j]
  {
    assert LooksBelow(defs, rank, defs[j], rank[j]);
    if i != j {
      var s :| References(defs[j], s) && s.Config? && Affected(defs, rank, i, s.id);
      AffectedRank(defs, rank, i, s.id);
    }
  }

  /** Changing one input changes no symbol outside those it affects. */
  lemma {:induction false} InputFrame(defs: seq<SymbolDef>, rank: seq<nat>, inputs: seq<Input>, i: nat, inp: Input, j: nat)
    requires Acyclic(defs, rank) && |inputs| == |defs| && i < |defs| && j < |defs|
    requires !Affected(defs, rank, i, j)
    ensures var s := Config(j, defs[j].ty);
      Denotation(defs, rank, inputs[i := inp])(s) == Denotation(defs, rank, inputs)(s)
    decreases rank[j]
  {
    var env, env' := Denotation(defs, rank, inputs), Denotation(defs, rank, inputs[i := inp]);
    assert LooksBelow(defs, rank, defs[j], rank[j]);
    forall s | References(defs[j], s)
      ensures env(s) == env'(s)
    {
      if s.Config? { InputFrame(defs, rank, inputs, i, inp, s.id); }
    }
    DenotationSolves(defs, rank, inputs);
    DenotationSolves(defs, rank, inputs[i := inp]);
    MeaningLocal(defs[j], inputs[j], env, env');
  }

  /** It is a well-typed assignment: no boolean symbol is `m`. */
  lemma DenotationWellTyped(defs: seq<SymbolDef>, rank: seq<nat>, inputs: seq<Input>)
    requires Acyclic(defs, rank) && |inputs| == |defs|
    ensures WellTyped(Denotation(defs, rank, inputs))
  {
    DenotationSolves(defs, rank, inputs);
  }

  // ----- the evaluator -----

  /** The part of `struct symbol` that evaluation writes. */
  datatype Cell = Cell(valid: bool, curr: SymbolValue, visible: Tri, selected: Tri, write: bool)

  /** What a valid cell holds. `selected` (rev_dep.tri) is left as it was while the symbol is deselected. */
  ghost predicate Holds(d: SymbolDef, inp: Input, env: Assignment, c: Cell) {
    && c.curr == Meaning(d, inp, env)
    && (d.ty != Unknown ==>
         && c.visible == Visibility(d, env)
         && (!Deselected(d, env) ==> c.selected == Selected(d, env)))
  }

  // ----- what an evaluation actually looks at -----

  predicate PromptLooks(props: seq<Property>, s: Symbol) { exists p | p in props :: p.text && Mentions(p.visible, s) }

  /** The conditions of the defaults up to the first that is not `n`. */
  predicate ConditionLooks(props: seq<Property>, env: Assignment, s: Symbol) {
    props != [] &&
    if props[0].ty != DefaultProp then ConditionLooks(props[1..], env, s)
    else Mentions(props[0].visible, s) || (ValueOpt(props[0].visible, env) == No && ConditionLooks(props[1..], env, s))
  }

  /** ... and the value of that default: a string symbol only looks at a symbol it names. */
  predicate DefaultLooks(d: SymbolDef, env: Assignment, s: Symbol) {
    || ConditionLooks(d.props, env, s)
    || match DefaultOf(d.props, env)
       case None => false
       case Some(p) => if d.ty in {Boolean, Tristate} then Mentions(p.expr, s) else p.expr == Some(Sym(s))
  }

  predicate NeedsDefault(d: SymbolDef, inp: Input, env: Assignment) {
    if d.ty in {Boolean, Tristate} then
      !Deselected(d, env) && (inp.isNew || Max(Visibility(d, env), Selected(d, env)) == No)
    else inp.isNew || Visibility(d, env) == No
  }

  /** The selects of a deselected symbol are not looked at. */
  predicate VisibilityLooks(d: SymbolDef, env: Assignment, s: Symbol) {
    PromptLooks(d.props, s) || Mentions(d.revDepInv, s) || (!Deselected(d, env) && Mentions(d.revDep, s))
  }

  predicate Looks(d: SymbolDef, inp: Input, env: Assignment, s: Symbol) {
    d.ty != Unknown && (VisibilityLooks(d, env, s) || (NeedsDefault(d, inp, env) && DefaultLooks(d, env, s)))
  }

  lemma {:induction false} PromptsAlike(props: seq<Property>, env: Assignment, env': Assignment)
    requires forall s | PromptLooks(props, s) :: env(s) == env'(s)
    ensures AnyVisiblePrompt(props, env) == AnyVisiblePrompt(props, env')
  {
    if props != [] {
      var n := |props| - 1;
      var init, p := props[..n], props[n];
      assert forall s | PromptLooks(init, s) :: PromptLooks(props, s);
      PromptsAlike(init, env, env');
      assert p in props;
      if p.text { ValueOptLocal(p.visible, env, env'); }
    }
  }

  lemma {:induction false} ConditionsAlike(props: seq<Property>, env: Assignment, env': Assignment)
    requires forall s | ConditionLooks(props, env, s) :: env(s) == env'(s)
    ensures DefaultOf(props, env) == DefaultOf(props, env')
    ensures forall s :: ConditionLooks(props, env, s) == ConditionLooks(props, env', s)
  {
    if props != [] {
      if props[0].ty == DefaultProp { ValueOptLocal(props[0].visible, env, env'); }
      if props[0].ty != DefaultProp || ValueOpt(props[0].visible, env) == No { ConditionsAlike(props[1..], env, env'); }
    }
  }

  lemma VisibilityAlike(d: SymbolDef, env: Assignment, env': Assignment)
    requires forall s | VisibilityLooks(d, env, s) :: env(s) == env'(s)
    ensures Deselected(d, env) == Deselected(d, env') && Visibility(d, env) == Visibility(d, env')
    ensures !Deselected(d, env) ==> Selected(d, env) == Selected(d, env')
  {
    PromptsAlike(d.props, env, env');
    ValueOptLocal(d.revDepInv, env, env');
    if !Deselected(d, env) { ValueOptLocal(d.revDep, env, env'); }
  }

  lemma DefaultAlike(d: SymbolDef, env: Assignment, env': Assignment)
    requires forall s | DefaultLooks(d, env, s) :: env(s) == env'(s)
    ensures DefaultOf(d.props, env) == DefaultOf(d.props, env')
    ensures forall s :: DefaultLooks(d, env, s) == DefaultLooks(d, env', s)
    ensures d.ty in {Boolean, Tristate} ==> DefaultTri(d, env) == DefaultTri(d, env')
    ensures d.ty !in {Boolean, Tristate} ==> DefaultString(d, env) == DefaultString(d, env')
  {
    ConditionsAlike(d.props, env, env');
    var p := DefaultOf(d.props, env);
    if p.Some? && d.ty in {Boolean, Tristate} { ValueOptLocal(p.value.expr, env, env'); }
  }

  /** A cell that holds does so under every assignment that agrees on what was looked at. */
  lemma HoldsAlike(d: SymbolDef, inp: Input, env: Assignment, env': Assignment, c: Cell)
    requires (forall s | Looks(d, inp, env, s) :: env(s) == env'(s)) && Holds(d, inp, env, c)
    ensures Holds(d, inp, env', c)
    ensures d.ty != Unknown ==> Written(d, env) == Written(d, env')
    ensures forall s :: Looks(d, inp, env, s) == Looks(d, inp, env', s)
  {
    if d.ty != Unknown {
      VisibilityAlike(d, env, env');
      assert NeedsDefault(d, inp, env) == NeedsDefault(d, inp, env');
      if NeedsDefault(d, inp, env) { DefaultAlike(d, env, env'); }
    }
  }

  /** `sym_tristate_within_range` on an evaluated cell. */
  predicate WithinRange(d: SymbolDef, c: Cell, val: Tri) {
    && c.visible != No
    && d.ty in {Boolean, Tristate}
    && !(d.ty == Boolean && val == Mod)
    && !Leq(c.visible, c.selected)
    && Leq(c.selected, val) && Leq(val, c.visible)
  }

  /** Re-evaluating a symbol after an accepted assignment gives the requested value. */
  lemma AcceptedValue(d: SymbolDef, inp: Input, env: Assignment, c: Cell, val: Tri)
    requires d.ty in {Boolean, Tristate} && Holds(d, inp, env, c)
    requires c.curr.tri == val || WithinRange(d, c, val)
    ensures Meaning(d, Input(inp.user.(tri := val), false), env).tri == val
  {}

  /** The inputs after `i` was set to `val`. */
  function Assigned(inputs: seq<Input>, i: nat, val: Tri): seq<Input>
    requires i < |inputs|
  {
    inputs[i := Input(inputs[i].user.(tri := val), false)]
  }

  /** What a symbol looks at does not depend on its own input. */
  lemma UpstreamSame(defs: seq<SymbolDef>, rank: seq<nat>, inputs: seq<Input>, i: nat, inp: Input)
    requires Acyclic(defs, rank) && |inputs| == |defs| && i < |defs|
    ensures SameOn(defs[i], Denotation(defs, rank, inputs), Denotation(defs, rank, inputs[i := inp]))
  {
    var env, env' := Denotation(defs, rank, inputs), Denotation(defs, rank, inputs[i := inp]);
    assert LooksBelow(defs, rank, defs[i], rank[i]);
    forall s | References(defs[i], s)
      ensures env(s) == env'(s)
    {
      if s.Config? {
        if Affected(defs, rank, i, s.id) { AffectedRank(defs, rank, i, s.id); }
        InputFrame(defs, rank, inputs, i, inp, s.id);
      }
    }
  }

  /** If the symbol whose input changed keeps its value, every symbol does. */
  lemma SameSolution(defs: seq<SymbolDef>, rank: seq<nat>, inputs: seq<Input>, inputs': seq<Input>, i: nat)
    requires Acyclic(defs, rank) && |inputs| == |inputs'| == |defs| && i < |defs| && inputs' == inputs[i := inputs'[i]]
    requires var s := Config(i, defs[i].ty); Denotation(defs, rank, inputs')(s) == Denotation(defs, rank, inputs)(s)
    ensures forall s :: Denotation(defs, rank, inputs')(s) == Denotation(defs, rank, inputs)(s)
  {
    var env, env' := Denotation(defs, rank, inputs), Denotation(defs, rank, inputs');
    DenotationSolves(defs, rank, inputs);
    DenotationSolves(defs, rank, inputs');
    UpstreamSame(defs, rank, inputs, i, inputs'[i]);
    MeaningLocal(defs[i], inputs'[i], env, env');
    assert Solves(defs, inputs', env);
    forall s
      ensures env'(s) == env(s)
    {
      if s.Config? && Known(defs, s) { SolutionUnique(defs, rank, inputs', env, env', s.id); }
    }
  }

  /** Setting a symbol to the value it has changes nothing, except that a string may lose its default. */
  predicate SettingKeeps(d: SymbolDef, inp: Input, c: Cell) {
    d.ty in {Boolean, Tristate, Unknown} || !inp.isNew || c.visible == No || inp.user.str == c.curr.str
  }

  /** An accepted assignment on an evaluated symbol of any type. */
  lemma SettingEffect(defs: seq<SymbolDef>, rank: seq<nat>, inputs: seq<Input>, i: nat, c: Cell, val: Tri)
    requires Acyclic(defs, rank) && |inputs| == |defs| && i < |defs|
    requires Holds(defs[i], inputs[i], Denotation(defs, rank, inputs), c)
    requires c.curr.tri == val || WithinRange(defs[i], c, val)
    ensures var v := Denotation(defs, rank, Assigned(inputs, i, val))(Config(i, defs[i].ty));
      && v.tri == val
      && (c.curr.tri == val ==> (v == c.curr <==> SettingKeeps(defs[i], inputs[i], c)))
  {
    var inputs' := Assigned(inputs, i, val);
    var env, env' := Denotation(defs, rank, inputs), Denotation(defs, rank, inputs');
    UpstreamSame(defs, rank, inputs, i, inputs'[i]);
    DenotationSolves(defs, rank, inputs');
    MeaningLocal(defs[i], inputs'[i], env, env');
    if defs[i].ty in {Boolean, Tristate} { AcceptedValue(defs[i], inputs[i], env, c, val); }
  }

  // ----- saving and reloading -----

  /** A visible symbol is set to the value it had; the input of any other is open. */
  ghost predicate Reloads(d: SymbolDef, env: Assignment, v: SymbolValue, inp: Input) {
    d.ty != Unknown && Visibility(d, env) != No ==>
      !inp.isNew && (if d.ty in {Boolean, Tristate} then inp.user.tri == v.tri else inp.user.str == v.str)
  }

  lemma ReloadedMeaning(d: SymbolDef, inp: Input, env: Assignment, inp': Input)
    requires Reloads(d, env, Meaning(d, inp, env), inp')
    ensures Meaning(d, inp', env) == Meaning(d, inp, env)
  {}

  /** Saving and reloading changes the value of no symbol. */
  lemma ReloadKeeps(defs: seq<SymbolDef>, rank: seq<nat>, inputs: seq<Input>, inputs': seq<Input>)
    requires Acyclic(defs, rank) && |inputs| == |inputs'| == |defs|
    requires var env := Denotation(defs, rank, inputs);
      forall i | 0 <= i < |defs| :: Reloads(defs[i], env, env(Config(i, defs[i].ty)), inputs'[i])
    ensures forall s :: Denotation(defs, rank, inputs')(s) == Denotation(defs, rank, inputs)(s)
  {
    var env, env' := Denotation(defs, rank, inputs), Denotation(defs, rank, inputs');
    DenotationSolves(defs, rank, inputs);
    DenotationSolves(defs, rank, inputs');
    forall i | 0 <= i < |defs| ensures env(Config(i, defs[i].ty)) == Meaning(defs[i], inputs'[i], env) {
      ReloadedMeaning(defs[i], inputs[i], env, inputs'[i]);
    }
    forall s
      ensures env'(s) == env(s)
    {
      if s.Config? && Known(defs, s) { SolutionUnique(defs, rank, inputs', env, env', s.id); }
    }
  }

  // ----- the cache -----

  /** Every symbol the evaluation of `d` looked at is evaluated. */
  ghost predicate Settled(d: SymbolDef, inp: Input, env: Assignment, cells: seq<Cell>) {
    forall s | Looks(d, inp, env, s) && s.Config? && s.id < |cells| :: cells[s.id].valid
  }

  /** The write mark is set unless the symbol has been printed since. */
  ghost predicate Marked(d: SymbolDef, env: Assignment, c: Cell, printed: bool) {
    d.ty != Unknown ==> (c.write <==> Written(d, env) && !printed)
  }

  ghost predicate CellRight(d: SymbolDef, inp: Input, env: Assignment, cells: seq<Cell>, printed: set<nat>, i: nat)
    requires i < |cells|
  {
    Holds(d, inp, env, cells[i]) && Marked(d, env, cells[i], i in printed) && Settled(d, inp, env, cells)
  }

  ghost predicate CacheRight(defs: seq<SymbolDef>, inputs: seq<Input>, env: Assignment, cells: seq<Cell>, printed: set<nat>)
    requires |defs| == |inputs| == |cells|
  {
    forall j | 0 <= j < |cells| && cells[j].valid :: CellRight(defs[j], inputs[j], env, cells, printed, j)
  }

  lemma CellAlike(d: SymbolDef, inp: Input, env: Assignment, env': Assignment, cells: seq<Cell>, printed: set<nat>, i: nat)
    requires i < |cells| && CellRight(d, inp, env, cells, printed, i)
    requires forall s | Looks(d, inp, env, s) :: env(s) == env'(s)
    ensures CellRight(d, inp, env', cells, printed, i)
  {
    HoldsAlike(d, inp, env, env', cells[i]);
  }

  lemma LooksReferenced(d: SymbolDef, inp: Input, env: Assignment, s: Symbol)
    requires Looks(d, inp, env, s)
    ensures References(d, s)
  {
    if DefaultLooks(d, env, s) {
      ConditionReferenced(d.props, env, s);
      DefaultFound(d.props, env);
    }
  }

  lemma {:induction false} ConditionReferenced(props: seq<Property>, env: Assignment, s: Symbol)
    ensures ConditionLooks(props, env, s) ==> exists p | p in props :: PropertyReads(p, s)
  {
    if props != [] {
      assert props[0] in props;
      ConditionReferenced(props[1..], env, s);
    }
  }

  lemma {:induction false} DefaultFound(props: seq<Property>, env: Assignment)
    ensures var p := DefaultOf(props, env); p.Some? ==> p.value in props && p.value.ty == DefaultProp
  {
    if props != [] { DefaultFound(props[1..], env); }
  }

  /** Changing the input of a symbol that is not evaluated changes no evaluated symbol. */
  lemma {:induction false} EvaluatedSame(defs: seq<SymbolDef>, rank: seq<nat>, inputs: seq<Input>, cells: seq<Cell>, printed: set<nat>, i: nat, inp: Input, j: nat)
    requires Acyclic(defs, rank) && |inputs| == |cells| == |defs| && i < |defs| && j < |defs|
    requires CacheRight(defs, inputs, Denotation(defs, rank, inputs), cells, printed) && !cells[i].valid && cells[j].valid
    ensures var env, env' := Denotation(defs, rank, inputs), Denotation(defs, rank, inputs[i := inp]);
      && CellRight(defs[j], inputs[j], env', cells, printed, j)
      && env'(Config(j, defs[j].ty)) == env(Config(j, defs[j].ty))
    decreases rank[j]
  {
    var env, env' := Denotation(defs, rank, inputs), Denotation(defs, rank, inputs[i := inp]);
    assert LooksBelow(defs, rank, defs[j], rank[j]);
    forall s | Looks(defs[j], inputs[j], env, s)
      ensures env(s) == env'(s)
    {
      LooksReferenced(defs[j], inputs[j], env, s);
      if s.Config? { EvaluatedSame(defs, rank, inputs, cells, printed, i, inp, s.id); }
    }
    CellAlike(defs[j], inputs[j], env, env', cells, printed, j);
    DenotationSolves(defs, rank, inputs);
    DenotationSolves(defs, rank, inputs[i := inp]);
  }

  /** A set symbol looks at no more than it did when it was new. */
  lemma SetCellRight(d: SymbolDef, inp: Input, inp': Input, env: Assignment, cells: seq<Cell>, printed: set<nat>, i: nat)
    requires i < |cells| && CellRight(d, inp, env, cells, printed, i)
    requires !inp'.isNew && cells[i].curr == Meaning(d, inp', env)
    ensures CellRight(d, inp', env, cells, printed, i)
  {}

  /** After `i` was set without any invalidation, the cache is right if and only if `i` was not evaluated or keeps
      its value. */
  lemma CacheKept(defs: seq<SymbolDef>, rank: seq<nat>, inputs: seq<Input>, cells: seq<Cell>, printed: set<nat>, i: nat, inp: Input)
    requires Acyclic(defs, rank) && |inputs| == |cells| == |defs| && i < |defs| && !inp.isNew
    requires CacheRight(defs, inputs, Denotation(defs, rank, inputs), cells, printed)
    ensures var env' := Denotation(defs, rank, inputs[i := inp]);
      CacheRight(defs, inputs[i := inp], env', cells, printed) <==>
      (cells[i].valid ==> env'(Config(i, defs[i].ty)) == cells[i].curr)
  {
    var inputs' := inputs[i := inp];
    var env, env' := Denotation(defs, rank, inputs), Denotation(defs, rank, inputs');
    DenotationSolves(defs, rank, inputs);
    DenotationSolves(defs, rank, inputs');
    if !cells[i].valid {
      forall j | 0 <= j < |cells| && cells[j].valid
        ensures CellRight(defs[j], inputs'[j], env', cells, printed, j)
      {
        EvaluatedSame(defs, rank, inputs, cells, printed, i, inp, j);
      }
    } else if env'(Config(i, defs[i].ty)) == cells[i].curr {
      SameSolution(defs, rank, inputs, inputs', i);
      forall j | 0 <= j < |cells| && cells[j].valid
        ensures CellRight(defs[j], inputs'[j], env', cells, printed, j)
      {
        CellAlike(defs[j], inputs[j], env, env', cells, printed, j);
        if j == i { SetCellRight(defs[i], inputs[i], inp, env', cells, printed, i); }
      }
    }
  }

  class Engine {
    const defs: seq<SymbolDef>
    ghost const rank: seq<nat>
    const modules: Option<nat>
    var inputs: seq<Input>
    var cells: seq<Cell>
    /** `sym_change_count`. */
    var changes: nat
    /** The symbols whose write mark was cleared since they were evaluated. */
    ghost var printed: set<nat>

    ghost predicate Shape()
      reads this
    {
      && |rank| == |defs| == |inputs| == |cells|
      && Acyclic(defs, rank)
      && (modules.Some? ==> modules.value < |defs|)
      && (forall i | 0 <= i < |cells| && defs[i].ty == Unknown :: !cells[i].write)
      && (forall i | i in printed :: i < |cells| && cells[i].valid)
    }

    ghost function Env(): Assignment
      requires Shape()
      reads this
    {
      Denotation(defs, rank, inputs)
    }

    /** Below rank `k`, a valid cell holds the denotation of its symbol, and what it looked at is valid. */
    ghost predicate Agrees(k: nat)
      requires Shape()
      reads this
    {
      forall i | 0 <= i < |cells| && rank[i] < k && cells[i].valid ::
        CellRight(defs[i], inputs[i], Env(), cells, printed, i)
    }

    ghost predicate Sound()
      reads this
    {
      Shape() && CacheRight(defs, inputs, Env(), cells, printed)
    }

    /** Between saves: a changed configuration has nothing printed. */
    ghost predicate Valid()
      reads this
    {
      Sound() && (changes > 0 ==> printed == {})
    }

    /** Evaluation writes only cells of rank below `k` that were not valid. */
    twostate predicate Touches(k: nat)
      reads this
    {
      && |cells| == |old(cells)| == |rank|
      && forall i | 0 <= i < |cells| :: old(cells)[i].valid || rank[i] >= k ==> cells[i] == old(cells)[i]
    }

    /** Everything an expression mentions is evaluated. */
    ghost predicate Ready(e: Option<Expr>)
      reads this
    {
      forall s | Mentions(e, s) && s.Config? && s.id < |cells| :: cells[s.id].valid
    }

    /** `expr_calc_value`: evaluates the symbols of `e` on demand. */
    method CalcExpr(e: Expr, ghost k: nat) returns (v: Tri)
      requires Shape() && Agrees(k)
      requires forall s | ContainsSymbol(e, s) :: Known(defs, s) && (s.Config? ==> rank[s.id] < k)
      modifies this`cells
      ensures Shape() && Agrees(k) && Touches(k)
      ensures v == Value(e, Env()) && Ready(Some(e))
      decreases k, 1, e
    {
      match e
      case Sym(s) =>
        assert ContainsSymbol(e, s);
        var c := CalcSymbol(s, k);
        v := c.tri;
      case Not(a) =>
        assert forall s :: ContainsSymbol(a, s) <==> ContainsSymbol(e, s);
        v := CalcExpr(a, k);
        v := Negate(v);
      case Bin(op, l, r) =>
        assert forall s :: ContainsSymbol(l, s) || ContainsSymbol(r, s) <==> ContainsSymbol(e, s);
        var v1 := CalcExpr(l, k);
        var v2 := CalcExpr(r, k);
        v := Apply(op, v1, v2);
      case Cmp(rel, l, r) =>
        assert ContainsSymbol(e, l) && ContainsSymbol(e, r);
        var c1 := CalcSymbol(l, k);
        var c2 := CalcSymbol(r, k);
        v := if (StringValue(l, c1) == StringValue(r, c2)) == (rel == Equal) then Yes else No;
    }

    /** A constant has its own value; a table symbol is evaluated and its current value read. */
    method CalcSymbol(s: Symbol, ghost k: nat) returns (c: SymbolValue)
      requires Shape() && Agrees(k)
      requires Known(defs, s) && (s.Config? ==> rank[s.id] < k)
      modifies this`cells
      ensures Shape() && Agrees(k) && Touches(k)
      ensures c == Env()(s) && (s.Config? ==> cells[s.id].valid)
      decreases k, 0
    {
      if !s.Config? {
        c := ConstValue(s);
      } else {
        CalcValue(s.id);
        c := cells[s.id].curr;
        DenotationSolves(defs, rank, inputs);
      }
    }

    /** `expr_calc_value` on a possibly missing expression of the definition of `i`. */
    method CalcOpt(e: Option<Expr>, ghost i: nat) returns (v: Tri)
      requires Shape() && i < |defs| && Agrees(rank[i])
      requires forall s | Mentions(e, s) :: References(defs[i], s)
      modifies this`cells
      ensures Shape() && Agrees(rank[i]) && Touches(rank[i])
      ensures v == ValueOpt(e, Env()) && Ready(e)
      decreases rank[i], 2
    {
      v := Yes;
      if e.Some? {
        assert LooksBelow(defs, rank, defs[i], rank[i]);
        assert forall s :: ContainsSymbol(e.value, s) <==> Mentions(e, s);
        v := CalcExpr(e.value, rank[i]);
      }
    }

    /** `sym_get_default_prop`. */
    method FindDefault(i: nat) returns (p: Option<Property>)
      requires Shape() && i < |defs| && Agrees(rank[i])
      modifies this`cells
      ensures Shape() && Agrees(rank[i]) && Touches(rank[i])
      ensures p == DefaultOf(defs[i].props, Env())
      ensures p.Some? ==> p.value in defs[i].props && p.value.ty == DefaultProp
      ensures forall s | ConditionLooks(defs[i].props, Env(), s) && s.Config? && s.id < |cells| :: cells[s.id].valid
      decreases rank[i], 3
    {
      var props := defs[i].props;
      for n := 0 to |props|
        invariant Shape() && Agrees(rank[i]) && Touches(rank[i])
        invariant DefaultOf(props, Env()) == DefaultOf(props[n..], Env())
        invariant forall s | ConditionLooks(props, Env(), s) && s.Config? && s.id < |cells| ::
                    cells[s.id].valid || ConditionLooks(props[n..], Env(), s)
      {
        assert props[n] in props && props[n..][0] == props[n] && props[n..][1..] == props[n + 1..];
        if props[n].ty == DefaultProp {
          assert forall s :: Mentions(props[n].visible, s) ==> PropertyReads(props[n], s);
          var v := CalcOpt(props[n].visible, i);
          if v != No {
            return Some(props[n]);
          }
        }
      }
      p := None;
    }

    /** All cells but `i` are as `Touches` allows below the rank of `i`. */
    twostate predicate TouchesBelow(i: nat)
      requires i < |rank|
      reads this
    {
      && |cells| == |old(cells)| == |rank|
      && forall j | 0 <= j < |cells| && j != i ::
           old(cells)[j].valid || rank[j] >= rank[i] ==> cells[j] == old(cells)[j]
    }

    /** The loop over the prompts. */
    method CalcPrompts(i: nat) returns (tri: Tri)
      requires Shape() && i < |defs| && Agrees(rank[i])
      modifies this`cells
      ensures Shape() && Agrees(rank[i]) && Touches(rank[i])
      ensures tri == AnyVisiblePrompt(defs[i].props, Env())
      ensures forall p | p in defs[i].props && p.text :: Ready(p.visible)
      decreases rank[i], 3
    {
      var props := defs[i].props;
      tri := No;
      for n := 0 to |props|
        invariant Shape() && Agrees(rank[i]) && Touches(rank[i])
        invariant tri == AnyVisiblePrompt(props[..n], Env())
        invariant forall j | 0 <= j < n && props[j].text :: Ready(props[j].visible)
      {
        var p := props[n];
        assert p in props && props[..n + 1][..n] == props[..n];
        if p.text {
          assert forall s :: Mentions(p.visible, s) ==> PropertyReads(p, s);
          var v := CalcOpt(p.visible, i);
          tri := Max(tri, v);
        }
      }
      assert props[..|props|] == props;
    }

    /** `rev_dep_inv` evaluates to `y`. */
    method CalcDeselected(i: nat) returns (b: bool)
      requires Shape() && i < |defs| && Agrees(rank[i])
      modifies this`cells
      ensures Shape() && Agrees(rank[i]) && Touches(rank[i])
      ensures b == Deselected(defs[i], Env()) && Ready(defs[i].revDepInv)
      decreases rank[i], 3
    {
      b := false;
      if defs[i].revDepInv.Some? {
        var v := CalcOpt(defs[i].revDepInv, i);
        b := v == Yes;
      }
    }

    /** What the selects give. */
    method CalcSelected(i: nat) returns (tri: Tri)
      requires Shape() && i < |defs| && Agrees(rank[i])
      modifies this`cells
      ensures Shape() && Agrees(rank[i]) && Touches(rank[i])
      ensures tri == Selected(defs[i], Env()) && Ready(defs[i].revDep)
      decreases rank[i], 3
    {
      tri := No;
      if defs[i].revDep.Some? {
        tri := CalcOpt(defs[i].revDep, i);
      }
      if tri == Mod && defs[i].ty == Boolean {
        tri := Yes;
      }
    }

    ghost predicate VisibilityReady(i: nat)
      requires Shape() && i < |defs|
      reads this
    {
      forall s | VisibilityLooks(defs[i], Env(), s) && s.Config? && s.id < |cells| :: cells[s.id].valid
    }

    ghost predicate DefaultReady(i: nat)
      requires Shape() && i < |defs|
      reads this
    {
      forall s | DefaultLooks(defs[i], Env(), s) && s.Config? && s.id < |cells| :: cells[s.id].valid
    }

    /** The prompts, cut off by a deselect. */
    method CalcVisible(i: nat) returns (tri: Tri, deselected: bool)
      requires Shape() && i < |defs| && Agrees(rank[i])
      modifies this`cells
      ensures Shape() && Agrees(rank[i]) && Touches(rank[i])
      ensures tri == Visibility(defs[i], Env()) && deselected == Deselected(defs[i], Env())
      ensures Ready(defs[i].revDepInv) && forall p | p in defs[i].props && p.text :: Ready(p.visible)
      decreases rank[i], 4
    {
      tri := CalcPrompts(i);
      if tri == Mod && defs[i].ty != Tristate {
        tri := Yes;
      }
      deselected := CalcDeselected(i);
      if deselected {
        tri := No;
      }
    }

    /** An assignment to fields of the symbol being evaluated is not seen by the symbols below it. */
    method Assign(i: nat, c: Cell)
      requires Shape() && i < |defs| && Agrees(rank[i])
      requires c.valid && cells[i].valid && (defs[i].ty == Unknown ==> !c.write)
      modifies this`cells
      ensures Shape() && Agrees(rank[i]) && cells == old(cells)[i := c]
      ensures old(VisibilityReady(i)) ==> VisibilityReady(i)
      ensures old(DefaultReady(i)) ==> DefaultReady(i)
    {
      cells := cells[i := c];
    }

    /** `sym_calc_visibility`. */
    method CalcVisibility(i: nat)
      requires Shape() && i < |defs| && Agrees(rank[i]) && cells[i].valid && defs[i].ty != Unknown
      modifies this`cells
      ensures Shape() && Agrees(rank[i]) && TouchesBelow(i) && VisibilityReady(i)
      ensures cells[i] == old(cells[i]).(
        visible := Visibility(defs[i], Env()),
        selected := if Deselected(defs[i], Env()) then old(cells[i]).selected else Selected(defs[i], Env()))
      decreases rank[i], 5
    {
      var tri, deselected := CalcVisible(i);
      Assign(i, cells[i].(visible := tri));
      if deselected {
        return;
      }
      tri := CalcSelected(i);
      Assign(i, cells[i].(selected := tri));
    }

    /** `sym_calc_value`. The valid mark is set before anything is evaluated. */
    method CalcValue(i: nat)
      requires Shape() && i < |defs| && Agrees(rank[i] + 1)
      modifies this`cells
      ensures Shape() && Touches(rank[i] + 1)
      ensures cells[i].valid && Agrees(rank[i] + 1)
      ensures forall k: nat :: old(Agrees(k)) ==> Agrees(k)
      decreases rank[i], 8
    {
      if cells[i].valid {
        return;
      }
      cells := cells[i := cells[i].(valid := true)];
      if defs[i].ty == Unknown {
        cells := cells[i := cells[i].(curr := SymbolValue(defs[i].name, No))];
        return;
      }
      Evaluate(i);
    }

    /** The rest of it for a symbol with a type. */
    method Evaluate(i: nat)
      requires Shape() && i < |defs| && Agrees(rank[i]) && defs[i].ty != Unknown && cells[i].valid && i !in printed
      modifies this`cells
      ensures Shape() && Agrees(rank[i]) && TouchesBelow(i)
      ensures cells[i].valid && CellRight(defs[i], inputs[i], Env(), cells, printed, i)
      decreases rank[i], 7
    {
      Assign(i, cells[i].(write := false));
      CalcVisibility(i);
      if defs[i].ty in {Boolean, Tristate} {
        Assign(i, cells[i].(curr := SymbolValue("n", No)));
        CalcLogic(i);
      } else {
        Assign(i, cells[i].(curr := SymbolValue("", No)));
        CalcString(i);
      }
    }

    /** What both halves start from. */
    ghost predicate Seen(i: nat)
      requires Shape() && i < |defs|
      reads this
    {
      && cells[i].valid && !cells[i].write && i !in printed && VisibilityReady(i)
      && cells[i].visible == Visibility(defs[i], Env())
      && (!Deselected(defs[i], Env()) ==> cells[i].selected == Selected(defs[i], Env()))
    }

    /** The boolean and tristate half of `sym_calc_value`. */
    method CalcLogic(i: nat)
      requires Shape() && i < |defs| && Agrees(rank[i]) && defs[i].ty in {Boolean, Tristate} && Seen(i)
      modifies this`cells
      ensures Shape() && Agrees(rank[i]) && TouchesBelow(i)
      ensures cells[i].valid && CellRight(defs[i], inputs[i], Env(), cells, printed, i)
      decreases rank[i], 6
    {
      var tri, write := LogicValue(i);
      if tri == Mod && defs[i].ty == Boolean {
        tri := Yes;
      }
      Assign(i, cells[i].(curr := SymbolValue("n", tri), write := write));
    }

    /** The value before promotion, and the write mark. */
    method LogicValue(i: nat) returns (tri: Tri, write: bool)
      requires Shape() && i < |defs| && Agrees(rank[i]) && defs[i].ty in {Boolean, Tristate} && Seen(i)
      modifies this`cells
      ensures Shape() && Agrees(rank[i]) && Touches(rank[i])
      ensures LogicTri(defs[i], inputs[i], Env()) == if defs[i].ty == Boolean then Promote(tri) else tri
      ensures write == Written(defs[i], Env())
      ensures NeedsDefault(defs[i], inputs[i], Env()) ==> DefaultReady(i)
      decreases rank[i], 5
    {
      var deselected := CalcDeselected(i);
      tri, write := No, false;
      if deselected {
      } else if Max(cells[i].visible, cells[i].selected) != No {
        write := true;
        if !inputs[i].isNew {
          tri := inputs[i].user.tri;
        } else {
          var found;
          found, tri := CalcDefault(i);
        }
        tri := Max(Min(tri, cells[i].visible), cells[i].selected);
      } else {
        write, tri := CalcDefault(i);
      }
    }

    method CalcDefault(i: nat) returns (found: bool, tri: Tri)
      requires Shape() && i < |defs| && Agrees(rank[i]) && defs[i].ty in {Boolean, Tristate}
      modifies this`cells
      ensures Shape() && Agrees(rank[i]) && Touches(rank[i]) && DefaultReady(i)
      ensures found == DefaultOf(defs[i].props, Env()).Some? && tri == DefaultTri(defs[i], Env())
      decreases rank[i], 4
    {
      var p := FindDefault(i);
      found, tri := p.Some?, No;
      if found {
        assert forall s :: Mentions(p.value.expr, s) ==> PropertyReads(p.value, s);
        tri := CalcOpt(p.value.expr, i);
      }
    }

    /** The string, int and hex half, without ranges. */
    method CalcString(i: nat)
      requires Shape() && i < |defs| && Agrees(rank[i]) && defs[i].ty in {Int, Hex, Str} && Seen(i)
      requires cells[i].curr == SymbolValue("", No)
      modifies this`cells
      ensures Shape() && Agrees(rank[i]) && TouchesBelow(i)
      ensures cells[i].valid && CellRight(defs[i], inputs[i], Env(), cells, printed, i)
      decreases rank[i], 6
    {
      if cells[i].visible != No {
        Assign(i, cells[i].(write := true));
        if !inputs[i].isNew {
          Assign(i, cells[i].(curr := SymbolValue(inputs[i].user.str, No)));
          return;
        }
      }
      var str := CalcDefaultString(i);
      if str.Some? {
        Assign(i, cells[i].(curr := SymbolValue(str.value, No), write := true));
      }
    }

    method CalcDefaultString(i: nat) returns (str: Option<string>)
      requires Shape() && i < |defs| && Agrees(rank[i]) && defs[i].ty in {Int, Hex, Str}
      modifies this`cells
      ensures Shape() && Agrees(rank[i]) && Touches(rank[i]) && DefaultReady(i)
      ensures str == DefaultString(defs[i], Env())
      decreases rank[i], 4
    {
      var p := FindDefault(i);
      str := None;
      match p
      case Some(Property(_, _, _, Some(Sym(s)))) =>
        assert PropertyReads(p.value, s);
        assert References(defs[i], s) && LooksBelow(defs, rank, defs[i], rank[i]);
        var c := CalcSymbol(s, rank[i]);
        str := Some(c.str);
      case _ =>
    }

    /** Nothing is evaluated yet and nothing is set. */
    constructor (defs: seq<SymbolDef>, ghost rank: seq<nat>, modules: Option<nat>)
      requires Acyclic(defs, rank) && (modules.Some? ==> modules.value < |defs|)
      ensures Valid() && this.defs == defs && this.rank == rank && this.modules == modules
      ensures forall i | 0 <= i < |cells| :: !cells[i].valid && inputs[i] == UNSET
    {
      this.defs, this.rank, this.modules := defs, rank, modules;
      inputs := seq(|defs|, i => UNSET);
      cells := seq(|defs|, i => Cell(false, SymbolValue("", No), No, No, false));
      changes, printed := 1, {};
    }

    /** The demand for one symbol: it ends valid, and every valid symbol holds its denotation. */
    method Demand(i: nat) returns (v: SymbolValue)
      requires Sound() && i < |defs|
      modifies this`cells
      ensures Sound()
      ensures cells[i].valid && v == cells[i].curr == Env()(Config(i, defs[i].ty))
      ensures forall j | 0 <= j < |cells| && old(cells)[j].valid :: cells[j] == old(cells)[j]
    {
      assert Agrees(rank[i] + 1);
      AgreesEverywhere();
      CalcValue(i);
      AgreesEverywhere();
      DenotationSolves(defs, rank, inputs);
      v := cells[i].curr;
    }

    /** The cache is right if and only if it is right below every rank. */
    lemma AgreesEverywhere()
      requires Shape()
      ensures CacheRight(defs, inputs, Env(), cells, printed) <==> forall k: nat :: Agrees(k)
    {
      if forall k: nat :: Agrees(k) {
        forall j | 0 <= j < |cells| && cells[j].valid
          ensures CellRight(defs[j], inputs[j], Env(), cells, printed, j)
        {
          assert Agrees(rank[j] + 1);
        }
      }
    }

    /** `sym_clear_all_valid`: only the MODULES symbol is evaluated again at once. */
    method ClearAllValid()
      requires Shape()
      modifies this`cells, this`changes, this`printed
      ensures Valid() && printed == {} && changes == old(changes) + 1
    {
      printed := {};
      var n := 0;
      while n < |cells|
        invariant n <= |cells| && Shape() && printed == {} && changes == old(changes)
        invariant forall j | 0 <= j < n :: !cells[j].valid
      {
        cells := cells[n := cells[n].(valid := false)];
        n := n + 1;
      }
      changes := changes + 1;
      if modules.Some? {
        var v := Demand(modules.value);
      }
    }

    /** `conf_write` starts from a cache without cleared write marks. */
    method BeginSave()
      requires Valid()
      modifies this`cells, this`changes, this`printed
      ensures Valid() && printed == {}
    {
      if changes == 0 {
        ClearAllValid();
      }
    }

    /** What it does with the symbol of an entry: evaluate it, test the write mark and clear it. */
    method TakeMark(i: nat) returns (v: SymbolValue, b: bool)
      requires Sound() && i < |defs|
      modifies this`cells, this`printed
      ensures Sound() && v == Env()(Config(i, defs[i].ty))
      ensures b <==> defs[i].ty != Unknown && Written(defs[i], Env()) && i !in old(printed)
      ensures printed == if b then old(printed) + {i} else old(printed)
    {
      v := Demand(i);
      b := cells[i].write;
      if b {
        cells := cells[i := cells[i].(write := false)];
        printed := printed + {i};
      }
    }

    method EndSave()
      requires Sound()
      modifies this`changes
      ensures Valid()
    {
      changes := 0;
    }

    /** `conf_read_simple`: all symbols start anew with what the file gives them. */
    method Load(user: seq<Input>)
      requires Shape() && |user| == |defs|
      modifies this`inputs, this`cells, this`changes, this`printed
      ensures Valid() && inputs == user
    {
      inputs := user;
      ClearAllValid();
    }

    /** `sym_set_tristate_value`. A change of value invalidates everything. Setting a symbol to the value its cell shows
        leaves the cache right, except that an evaluated string symbol loses its default: its cached string is then
        stale unless it was set or invisible before or happens to have the user's string. */
    method SetTristateValue(i: nat, val: Tri) returns (ok: bool)
      requires Valid() && i < |defs|
      modifies this`inputs, this`cells, this`changes, this`printed
      ensures Shape()
      ensures ok <==> old(cells[i].curr.tri == val || WithinRange(defs[i], cells[i], val))
      ensures !ok ==> inputs == old(inputs) && cells == old(cells) && Valid()
      ensures ok ==> inputs == Assigned(old(inputs), i, val) && (old(cells[i].curr.tri) == val ==> cells == old(cells))
      ensures ok ==> (Valid() <==> old(cells[i].valid ==> SettingKeeps(defs[i], inputs[i], cells[i])))
      ensures ok && old(cells[i].valid) ==> Env()(Config(i, defs[i].ty)).tri == val
      ensures forall j: nat | j < |defs| && !Affected(defs, rank, i, j) ::
                Env()(Config(j, defs[j].ty)) == old(Env())(Config(j, defs[j].ty))
    {
      var oldval := cells[i].curr.tri;
      ghost var env := Env();
      if oldval != val && !WithinRange(defs[i], cells[i], val) {
        return false;
      }
      forall j: nat | j < |defs| && !Affected(defs, rank, i, j)
        ensures Denotation(defs, rank, Assigned(inputs, i, val))(Config(j, defs[j].ty)) == env(Config(j, defs[j].ty))
      {
        InputFrame(defs, rank, inputs, i, Assigned(inputs, i, val)[i], j);
      }
      if cells[i].valid { SettingEffect(defs, rank, inputs, i, cells[i], val); }
      CacheKept(defs, rank, inputs, cells, printed, i, Assigned(inputs, i, val)[i]);
      inputs := Assigned(inputs, i, val);
      if oldval != val {
        ClearAllValid();
      }
      ok := true;
    }
  }

  // ----- a stale string -----

  /** A string symbol with a prompt and the default "abc". */
  const SAMPLE := SymbolDef(
    "SAMPLE", Str, false,
    [Property(PromptProp, true, None, None), Property(DefaultProp, false, None, Some(Sym(Literal("abc"))))], None, None)

  lemma SampleMeaning(inp: Input, env: Assignment)
    requires env(Literal("abc")).str == "abc"
    ensures Visibility(SAMPLE, env) == Yes
    ensures Meaning(SAMPLE, inp, env).str == if inp.isNew then "abc" else inp.user.str
    ensures Acyclic([SAMPLE], [0])
  {
    var p, q := SAMPLE.props[0], SAMPLE.props[1];
    assert AnyVisiblePrompt([p], env) == Yes by { assert [p][..0] == []; }
    assert AnyVisiblePrompt(SAMPLE.props, env) == Yes by { assert SAMPLE.props[..1] == [p]; }
    assert DefaultOf(SAMPLE.props[1..], env) == Some(q);
    forall s | References(SAMPLE, s) ensures s == Literal("abc") {}
  }

  lemma SampleDenotes(inputs: seq<Input>)
    requires |inputs| == 1
    ensures Acyclic([SAMPLE], [0])
    ensures var env := Denotation([SAMPLE], [0], inputs);
      && Visibility(SAMPLE, env) == Yes
      && env(Config(0, Str)) == Meaning(SAMPLE, inputs[0], env)
      && env(Config(0, Str)).str == if inputs[0].isNew then "abc" else inputs[0].user.str
  {
    SampleMeaning(inputs[0], Denotation([SAMPLE], [0], inputs));
    DenotationSolves([SAMPLE], [0], inputs);
    assert [SAMPLE][0] == SAMPLE;
  }

  /** Set to the `n` it has anyway, the symbol keeps showing its default although the user's empty string is its value. */
  method StaleString() returns (e: Engine)
    ensures fresh(e) && e.Shape() && !e.Valid()
    ensures |e.cells| == 1 && e.cells[0].valid && e.cells[0].curr.str == "abc" && e.Env()(Config(0, Str)).str == ""
  {
    e := EvaluatedSample();
    SampleDenotes(e.inputs);
    ghost var env, c := e.Env(), e.cells[0];
    assert CellRight(SAMPLE, e.inputs[0], env, e.cells, e.printed, 0);
    assert c.visible == Yes && c.curr.tri == No;
    var ok := e.SetTristateValue(0, No);
    assert ok;
    SampleDenotes(e.inputs);
  }

  method EvaluatedSample() returns (e: Engine)
    ensures fresh(e) && e.Valid() && e.defs == [SAMPLE] && e.rank == [0] && |e.cells| == 1
    ensures e.cells[0].valid && e.cells[0].curr.str == "abc" && e.inputs == [UNSET]
  {
    SampleDenotes([UNSET]);
    e := new Engine([SAMPLE], [0], None);
    assert e.inputs == [UNSET];
    var v := e.Demand(0);
  }
}
