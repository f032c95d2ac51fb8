/** What the value of a symbol is, case by case, in terms of the conditions of its definition. */
module SymbolMeaning {
  import opened Common
  import opened Expressions
  import opened Comparison
  import opened SymbolTable
  import opened Evaluator

  /** A deselect holds. */
  predicate Off(d: SymbolDef, env: Assignment) { d.revDepInv.Some? && Value(d.revDepInv.value, env) == Yes }

  /** `m` as a value of a symbol of type `ty`. */
  function As(ty: SymbolType, t: Tri): Tri { if ty == Boolean && t == Mod then Yes else t }

  /** `v` is the greatest condition of a prompt, with `m` counting as `y` unless the symbol is tristate. */
  ghost predicate Shows(d: SymbolDef, env: Assignment, v: Tri) {
    var up := (t: Tri) => if t == Mod && d.ty != Tristate then Yes else t;
    if Off(d, env) then v == No
    else
      && (forall k | 0 <= k < |d.props| && d.props[k].text :: Leq(up(ValueOpt(d.props[k].visible, env)), v))
      && (v == No || exists k | 0 <= k < |d.props| && d.props[k].text :: up(ValueOpt(d.props[k].visible, env)) == v)
  }

  /** `k` is the first default whose condition is not `n`. */
  ghost predicate FirstDefault(props: seq<Property>, env: Assignment, k: nat) {
    && k < |props| && props[k].ty == DefaultProp && ValueOpt(props[k].visible, env) != No
    && forall j | 0 <= j < k && props[j].ty == DefaultProp :: ValueOpt(props[j].visible, env) == No
  }

  ghost predicate NoDefault(props: seq<Property>, env: Assignment) {
    forall j | 0 <= j < |props| && props[j].ty == DefaultProp :: ValueOpt(props[j].visible, env) == No
  }

  /** The value of that default. */
  ghost predicate Defaults(d: SymbolDef, env: Assignment, v: Tri) {
    if NoDefault(d.props, env) then v == No
    else exists k: nat :: FirstDefault(d.props, env, k) && v == ValueOpt(d.props[k].expr, env)
  }

  /** What the selects give. */
  function Pulled(d: SymbolDef, env: Assignment): Tri {
    As(d.ty, if d.revDep.Some? then Value(d.revDep.value, env) else No)
  }

  // ----- visibility and defaults -----

  lemma {:induction false} PromptsMax(props: seq<Property>, env: Assignment)
    ensures var v := AnyVisiblePrompt(props, env);
      && (forall k | 0 <= k < |props| && props[k].text :: Leq(ValueOpt(props[k].visible, env), v))
      && (v == No || exists k | 0 <= k < |props| && props[k].text :: ValueOpt(props[k].visible, env) == v)
  {
    if props != [] {
      var n := |props| - 1;
      PromptsMax(props[..n], env);
      var w := AnyVisiblePrompt(props[..n], env);
      if w != No {
        var k :| 0 <= k < n && props[..n][k].text && ValueOpt(props[..n][k].visible, env) == w;
        assert props[k].text && ValueOpt(props[k].visible, env) == w;
      }
      forall k | 0 <= k < n && props[k].text ensures Leq(ValueOpt(props[k].visible, env), w) {
        assert props[..n][k] == props[k];
      }
    }
  }

  /** `sym_calc_visibility` computes the greatest prompt condition, and there is only one. */
  lemma VisibilityMeans(d: SymbolDef, env: Assignment, v: Tri)
    ensures Shows(d, env, v) <==> v == Visibility(d, env)
  {
    PromptsMax(d.props, env);
  }

  lemma {:induction false} DefaultMeans(props: seq<Property>, env: Assignment) returns (k: nat)
    ensures DefaultOf(props, env).None? <==> NoDefault(props, env)
    ensures DefaultOf(props, env).Some? ==> FirstDefault(props, env, k) && DefaultOf(props, env) == Some(props[k])
  {
    k := 0;
    if props == [] || (props[0].ty == DefaultProp && ValueOpt(props[0].visible, env) != No) {
      return;
    }
    k := DefaultMeans(props[1..], env);
    forall j | 0 <= j < |props| - 1 ensures props[1..][j] == props[j + 1] {}
    k := k + 1;
    if DefaultOf(props, env).Some? {
      assert props[k] == props[1..][k - 1];
      forall j | 0 <= j < k && props[j].ty == DefaultProp ensures ValueOpt(props[j].visible, env) == No {
        if j > 0 { assert props[j] == props[1..][j - 1]; }
      }
    } else {
      forall j | 0 <= j < |props| && props[j].ty == DefaultProp ensures ValueOpt(props[j].visible, env) == No {
        if j > 0 { assert props[j] == props[1..][j - 1]; }
      }
    }
  }

  /** `sym_get_default_prop` finds the first default whose condition is not `n`. */
  lemma DefaultExactly(props: seq<Property>, env: Assignment)
    ensures DefaultOf(props, env).None? <==> NoDefault(props, env)
    ensures forall k: nat | FirstDefault(props, env, k) :: DefaultOf(props, env) == Some(props[k])
    ensures NoDefault(props, env) || exists k: nat :: FirstDefault(props, env, k)
  {
    var j := DefaultMeans(props, env);
    forall k: nat | FirstDefault(props, env, k) ensures DefaultOf(props, env) == Some(props[k]) {
      assert !NoDefault(props, env);
      assert j == k;
    }
  }

  // ----- the value of a logical symbol -----

  /** The value of a boolean or tristate symbol: a deselect turns it off; otherwise the selects are a lower bound,
      and the visibility an upper bound on what the user (or, while nothing is set, the default) asks for; with
      neither prompt nor select it is the default. */
  predicate LogicMeans(d: SymbolDef, inp: Input, env: Assignment, visible: Tri, dflt: Tri, v: Tri) {
    var selected, wanted := Pulled(d, env), As(d.ty, if inp.isNew then dflt else inp.user.tri);
    if Off(d, env) then v == No
    else if visible == No && selected == No then v == As(d.ty, dflt)
    else Between(wanted, selected, visible, v)
  }

  /** `v` is `wanted` kept between the selects and the visibility, where the selects win. */
  predicate Between(wanted: Tri, selected: Tri, visible: Tri, v: Tri) {
    && Leq(selected, v)
    && (Leq(v, visible) || Leq(v, selected))
    && (Leq(selected, wanted) && Leq(wanted, visible) ==> v == wanted)
    && (Leq(wanted, selected) || Leq(visible, selected) ==> v == selected)
    && (Leq(selected, visible) && Leq(visible, wanted) ==> v == visible)
  }

  lemma BetweenMeans(ty: SymbolType, wanted: Tri, selected: Tri, visible: Tri, v: Tri)
    requires ty == Boolean ==> selected != Mod && visible != Mod
    ensures As(ty, Max(Min(wanted, visible), selected)) == v <==> Between(As(ty, wanted), selected, visible, v)
  {}

  lemma LogicValueMeans(d: SymbolDef, inp: Input, env: Assignment, visible: Tri, dflt: Tri, v: Tri)
    requires d.ty in {Boolean, Tristate} && Shows(d, env, visible) && Defaults(d, env, dflt)
    ensures Meaning(d, inp, env).tri == v <==> LogicMeans(d, inp, env, visible, dflt, v)
  {
    VisibilityMeans(d, env, visible);
    DefaultExactly(d.props, env);
    assert dflt == DefaultTri(d, env);
    BetweenMeans(d.ty, if inp.isNew then dflt else inp.user.tri, Pulled(d, env), visible, v);
  }

  /** There is such a visibility and such a default value, so the lemma above always applies. */
  lemma LogicMeansSomething(d: SymbolDef, env: Assignment)
    ensures exists visible :: Shows(d, env, visible)
    ensures exists dflt :: Defaults(d, env, dflt)
  {
    VisibilityMeans(d, env, Visibility(d, env));
    DefaultExactly(d.props, env);
    assert Defaults(d, env, DefaultTri(d, env));
  }

  /** It is written exactly when it is not deselected and a prompt, a select or a default gives the value. */
  lemma LogicWrittenMeans(d: SymbolDef, env: Assignment, visible: Tri)
    requires d.ty in {Boolean, Tristate} && Shows(d, env, visible)
    ensures Written(d, env) <==> !Off(d, env) && (visible != No || Pulled(d, env) != No || !NoDefault(d.props, env))
  {
    VisibilityMeans(d, env, visible);
    DefaultExactly(d.props, env);
  }

  // ----- the value of a string -----

  /** The symbol named by the first default whose condition is not `n`, if that default is one symbol. */
  ghost predicate Named(d: SymbolDef, env: Assignment, s: Symbol) {
    exists k: nat :: FirstDefault(d.props, env, k) && d.props[k].expr == Some(Sym(s))
  }

  /** A string, a hex or an int: what the user set while a prompt is visible, otherwise the string of the symbol its
      default names, otherwise empty. It is written when it is visible or has such a default. */
  lemma StringMeans(d: SymbolDef, inp: Input, env: Assignment, visible: Tri, s: Symbol)
    requires d.ty !in {Boolean, Tristate, Unknown} && Shows(d, env, visible)
    ensures Meaning(d, inp, env).tri == No
    ensures visible != No && !inp.isNew ==> Meaning(d, inp, env).str == inp.user.str
    ensures (visible == No || inp.isNew) && Named(d, env, s) ==> Meaning(d, inp, env).str == env(s).str
    ensures (visible == No || inp.isNew) && (forall s' :: !Named(d, env, s')) ==> Meaning(d, inp, env).str == ""
    ensures Written(d, env) <==> visible != No || exists s' :: Named(d, env, s')
  {
    VisibilityMeans(d, env, visible);
    DefaultExactly(d.props, env);
    match DefaultOf(d.props, env)
    case Some(Property(_, _, _, Some(Sym(s')))) => assert Named(d, env, s');
    case _ =>
  }

  // ----- which values the user may set -----

  /** `sym_tristate_within_range` accepts exactly the values that setting them would give, and none when the selects
      leave the user no choice. */
  lemma RangeExactly(d: SymbolDef, inp: Input, env: Assignment, c: Cell, visible: Tri, val: Tri)
    requires d.ty in {Boolean, Tristate} && Holds(d, inp, env, c) && Shows(d, env, visible)
    ensures WithinRange(d, c, val) <==>
      !Leq(visible, Pulled(d, env)) && Meaning(d, Input(inp.user.(tri := val), false), env).tri == val
  {
    VisibilityMeans(d, env, visible);
  }
}
