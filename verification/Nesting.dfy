/** Which entries `menu_finalize` moves, in terms of what the conditions say and which entries have a prompt text. */
module Nesting {
  import opened Common
  import opened Expressions
  import opened Equivalence
  import opened Canonical
  import opened Duplicates
  import opened Transformation
  import opened Comparison
  import opened Menus
  import DependencyCheck

  // ----- when an entry depends on a symbol -----

  /** The entry shows under the condition `x`: that of its prompt, or its own when it has no prompt. */
  predicate ShowsIf(f: Entry, x: Expr) {
    match f.prompt case Some(p) => p.visible == Some(x) case None => f.dep == Some(x)
  }

  /** The operands of the conjunction. */
  function Conjuncts(e: Expr): set<Expr> {
    match e case Bin(And, l, r) => Conjuncts(l) + Conjuncts(r) case _ => {e}
  }

  /** A conjunct that cannot hold while `s` is `n`. */
  predicate Requires(x: Expr, s: Symbol) {
    || Sym(s) in Conjuncts(x) || Cmp(Equal, s, SymYes) in Conjuncts(x)
    || Cmp(Equal, s, SymMod) in Conjuncts(x) || Cmp(Unequal, s, SymNo) in Conjuncts(x)
  }

  /** `expr_depends_symbol` looks for exactly such a conjunct. */
  lemma {:induction false} DependsExactly(e: Expr, s: Symbol)
    ensures DependsSymbol(e, s) <==> Requires(e, s)
    ensures DependsSymbol(e, s) ==> s in DependencyCheck.Occurring(e)
  {
    if IsOp(And, e) { DependsExactly(e.left, s); DependsExactly(e.right, s); }
  }

  /** The prompt of `e` has no condition, or there is no prompt. */
  predicate Unconditional(e: Entry) { e.prompt.Some? ==> e.prompt.value.visible.None? }

  /** "`x` is not n", normalised, has used up "the parent shows", normalised. */
  predicate Absorbs(x: Expr, e: Entry) {
    EliminateEq(NotNo(Some(x)), NotNo(match e.prompt case Some(p) => p.visible case None => None)).1 == Sym(SymYes)
  }

  lemma {:induction false} YesStays(op: Op, e: Expr)
    ensures EliminateSlots(op, e, Sym(SymYes)).1 == Sym(SymYes)
  {
    if IsOp(op, e) {
      YesStays(op, e.left);
      YesStays(op, e.right);
    } else if ExprEq(e, Sym(SymYes)) {
      assert e == Sym(SymYes);
    }
  }

  lemma UnconditionalAbsorbs(x: Expr, e: Entry)
    requires Unconditional(e)
    ensures Absorbs(x, e)
  {
    assert NotNo(None) == Sym(SymYes) by {
      assert Transform(Not(Sym(SymNo))) == Sym(SymYes);
      assert Reduced(Sym(SymYes)) == Sym(SymYes);
    }
    var y := NotNo(Some(x));
    if y.Bin? { YesStays(y.op, y); }
    assert EliminateYn(Sym(SymYes)) == Sym(SymYes);
  }

  /** The nesting test in full: an entry without a condition stays; otherwise the condition must mention the symbol
      and either require it or absorb the condition of the parent, which an unconditional parent always allows. */
  lemma NestsExactly(e: Entry, f: Entry, s: Symbol)
    requires e.sym == Some(s)
    ensures Nests(e, f) ==> exists x :: ShowsIf(f, x)
    ensures forall x | ShowsIf(f, x) ::
      && (Nests(e, f) <==> s in DependencyCheck.Occurring(x) && (Requires(x, s) || Absorbs(x, e)))
      && (Unconditional(e) ==> (Nests(e, f) <==> s in DependencyCheck.Occurring(x)))
  {
    if Shown(f).Some? { assert ShowsIf(f, Shown(f).value); }
    forall x | ShowsIf(f, x)
      ensures Nests(e, f) <==> s in DependencyCheck.Occurring(x) && (Requires(x, s) || Absorbs(x, e))
      ensures Unconditional(e) ==> (Nests(e, f) <==> s in DependencyCheck.Occurring(x))
    {
      assert Shown(f) == Some(x);
      DependsExactly(x, s);
      DependencyCheck.OccurringContains(x, s);
      if Unconditional(e) { UnconditionalAbsorbs(x, e); }
    }
  }

  // ----- what absorption comes to -----

  lemma {:induction false} SomeOperand(op: Op, e: Expr) returns (z: Canon)
    ensures Count(op, e, z) >= 1
  {
    if IsOp(op, e) { z := SomeOperand(op, e.left); } else { z := Shape(e); }
  }

  /** A group has more operands than a single expression. */
  lemma NotIncluded(op: Op, e1: Expr, e2: Expr)
    requires !IsOp(op, e1) && IsOp(op, e2)
    ensures !(Operands(op, e2) <= Operands(op, e1))
  {
    var z := SomeOperand(op, e2.left);
    var w := SomeOperand(op, e2.right);
    CountBin(op, e2.left, e2.right, z);
    CountBin(op, e2.left, e2.right, w);
    if Operands(op, e2) <= Operands(op, e1) {
      assert Count(op, e2, z) <= Count(op, e1, z);
      assert Count(op, e2, w) <= Count(op, e1, w);
      CountLeaf(op, e1, z);
      CountLeaf(op, e1, w);
    }
  }

  lemma {:induction false} OrKeeps(e1: Expr, e2: Expr)
    requires ConstFree(e1) && ConstFree(e2) && IsOp(Or, e2)
    ensures EliminateYn(EliminateSlots(Or, e1, e2).1) != Sym(SymYes)
  {
    ResidueSelf(Or, e1);
    ResidueSelf(Or, e2);
    SlotsResidue(Or, e1, e2, e1, e2);
    FoldLeaves(Or, e2, EliminateSlots(Or, e1, e2).1, Atom(SymMod));
  }

  lemma {:induction false} AndKeeps(e1: Expr, e2: Expr)
    requires ConstFree(e1) && ConstFree(e2) && Groups(e1) && Groups(e2) && !IsOp(And, e1) && IsOp(And, e2)
    ensures EliminateYn(EliminateSlots(And, e1, e2).1) != Sym(SymYes)
  {
    if EliminateYn(EliminateSlots(And, e1, e2).1) == Sym(SymYes) {
      GoneIncluded(And, e1, e2);
      NotIncluded(And, e1, e2);
    }
  }

  /** Only a conjunction absorbs. */
  lemma {:induction false} OnlyAndAbsorbs(e1: Expr, e2: Expr)
    requires !IsOp(And, e1) && ConstFree(e1) && ConstFree(e2) && Groups(e1) && Groups(e2) && !IsYesNo(e2)
    ensures EliminateEq(e1, e2).1 != Sym(SymYes)
  {
    ConstFreeKept(e2);
    if IsOp(Or, e2) {
      OrKeeps(e1, e2);
    } else {
      if IsOp(Or, e1) { SingleSlot(Or, e1, e2); }
      if IsOp(And, e2) { AndKeeps(e1, e2); }
    }
  }

  /** Over conditions without y/n operands the parent's condition is absorbed exactly when the follower's is a
      conjunction that has all of its operands. */
  lemma AbsorbsExactly(x: Expr, e: Entry, parent: Option<Expr>)
    requires e.prompt.Some? && e.prompt.value.visible == parent
    requires var a, b := NotNo(Some(x)), NotNo(parent);
      ConstFree(a) && ConstFree(b) && Groups(a) && Groups(b) && !IsYesNo(b)
    ensures var a, b := NotNo(Some(x)), NotNo(parent);
      Absorbs(x, e) <==> IsOp(And, a) && Strings(And, b) == 0 && Operands(And, b) <= Operands(And, a)
  {
    var a, b := NotNo(Some(x)), NotNo(parent);
    if IsOp(And, a) { AbsorbedExactly(a, b); } else { OnlyAndAbsorbs(a, b); }
  }

  // ----- hoisting -----

  /** The entry is shown as a line of its own. */
  predicate HasText(e: Entry) { e.prompt.Some? && e.prompt.value.text }

  /** The entries of a list with the lists they have. */
  function Nodes(f: Forest): seq<(nat, Forest)> {
    match f case Nil => [] case Cons(i, k, r) => [(i, k)] + Nodes(r)
  }

  /** What the list should look like: each entry with text keeps its list; an entry without loses it, and the list
      follows it, raised in the same way. */
  function Raised(c: Entries, f: Forest): seq<(nat, Forest)> {
    match f
    case Nil => []
    case Cons(i, k, r) =>
      if HasText(Get(c, i)) then [(i, k)] + Raised(c, r) else [(i, Nil)] + (Raised(c, k) + Raised(c, r))
  }

  lemma {:induction false} RaisedAppend(c: Entries, f: Forest, g: Forest)
    ensures Raised(c, Append(f, g)) == Raised(c, f) + Raised(c, g)
    decreases f
  {
    if f.Cons? {
      RaisedAppend(c, f.rest, g);
      if HasText(Get(c, f.id)) {
        Regroup([(f.id, f.kids)], Raised(c, f.rest), Raised(c, g));
      } else {
        Regroup(Raised(c, f.kids), Raised(c, f.rest), Raised(c, g));
        Regroup([(f.id, Nil)], Raised(c, f.kids) + Raised(c, f.rest), Raised(c, g));
      }
    }
  }

  /** The last loop of `menu_finalize` arranges the list in exactly this way. */
  lemma {:induction false} HoistExactly(c: Entries, f: Forest)
    ensures Nodes(Hoist(c, f)) == Raised(c, f)
    decreases |Preorder(f)|
  {
    if f.Cons? {
      if f.kids != Nil && !HasText(Get(c, f.id)) {
        HoistExactly(c, Append(f.kids, f.rest));
        RaisedAppend(c, f.kids, f.rest);
      } else {
        HoistExactly(c, f.rest);
      }
    }
  }

  /** At every depth only entries with a text have a list. */
  predicate Flat(c: Entries, f: Forest) {
    match f case Nil => true case Cons(i, k, r) => (k != Nil ==> HasText(Get(c, i))) && Flat(c, k) && Flat(c, r)
  }

  predicate ListsFlat(c: Entries, f: Forest) {
    match f case Nil => true case Cons(_, k, r) => Flat(c, k) && ListsFlat(c, r)
  }

  lemma {:induction false} FlatAppend(c: Entries, f: Forest, g: Forest)
    requires Flat(c, f) && ListsFlat(c, g)
    ensures ListsFlat(c, Append(f, g))
    decreases f
  {
    if f.Cons? { FlatAppend(c, f.rest, g); }
  }

  lemma {:induction false} HoistFlat(c: Entries, f: Forest)
    requires ListsFlat(c, f)
    ensures Flat(c, Hoist(c, f))
    decreases |Preorder(f)|
  {
    if f.Cons? {
      if f.kids != Nil && Hidden(Get(c, f.id)) {
        FlatAppend(c, f.kids, f.rest);
        HoistFlat(c, Append(f.kids, f.rest));
      } else {
        HoistFlat(c, f.rest);
      }
    }
  }

  /** Conditions change, texts do not. */
  ghost predicate SameText(c: Entries, d: Entries) {
    |c| == |d| && forall x: nat :: HasText(Get(d, x)) == HasText(Get(c, x))
  }

  lemma {:induction false} HandDownText(c: Entries, outer: Option<Expr>, f: Forest)
    ensures SameText(c, HandDown(c, outer, f))
    decreases f
  {
    if f.Cons? { HandDownText(Set(c, f.id, Conditioned(Get(c, f.id), outer)), outer, f.rest); }
  }

  lemma {:induction false} FlatText(c: Entries, d: Entries, f: Forest)
    requires SameText(c, d)
    ensures Flat(c, f) == Flat(d, f)
  {
    if f.Cons? { FlatText(c, d, f.kids); FlatText(c, d, f.rest); }
  }

  lemma {:induction false} HoistText(c: Entries, d: Entries, f: Forest)
    requires SameText(c, d)
    ensures Hoist(c, f) == Hoist(d, f)
    decreases |Preorder(f)|
  {
    if f.Cons? {
      assert Hidden(Get(c, f.id)) == Hidden(Get(d, f.id));
      if f.kids != Nil && Hidden(Get(c, f.id)) {
        HoistText(c, d, Append(f.kids, f.rest));
      } else {
        HoistText(c, d, f.rest);
      }
    }
  }

  /** After `menu_finalize` no entry without a prompt text has a list, at any depth below it. */
  lemma {:induction false} FinalizedFlat(c: Entries, i: nat, k: Forest, r: Forest)
    ensures var o := Finalized(c, i, k, r); SameText(c, o.entries) && Flat(c, o.kids)
    decreases |Preorder(k)| + |Preorder(r)|, 1
  {
    if k != Nil {
      var d := HandDown(c, HandedDown(Get(c, i)), k);
      HandDownText(c, HandedDown(Get(c, i)), k);
      ListFlat(d, k);
      var a := FinalizedList(d, k);
      HoistText(d, a.entries, a.kids);
      HoistFlat(d, a.kids);
      FlatText(c, d, Hoist(d, a.kids));
    } else if Get(c, i).sym.Some? {
      var a := Swallowed(c, Get(c, i), r);
      SwallowedFlat(c, Get(c, i), r);
      HoistText(c, a.entries, a.kids);
      HoistFlat(c, a.kids);
    }
  }

  lemma {:induction false} ListFlat(c: Entries, f: Forest)
    ensures var o := FinalizedList(c, f); SameText(c, o.entries) && ListsFlat(c, o.kids)
    decreases |Preorder(f)|, 0
  {
    if f.Cons? {
      var a := Finalized(c, f.id, f.kids, f.rest);
      SplitSmaller(f.id, f.kids, f.rest, a.kids, a.rest);
      FinalizedFlat(c, f.id, f.kids, f.rest);
      ListFlat(a.entries, a.rest);
      ListsFlatText(c, a.entries, FinalizedList(a.entries, a.rest).kids);
    }
  }

  lemma {:induction false} SwallowedFlat(c: Entries, e: Entry, f: Forest)
    ensures var o := Swallowed(c, e, f); SameText(c, o.entries) && ListsFlat(c, o.kids)
    decreases |Preorder(f)|, 0
  {
    if f.Cons? && Nests(e, Get(c, f.id)) {
      var a := Finalized(c, f.id, f.kids, f.rest);
      SplitSmaller(f.id, f.kids, f.rest, a.kids, a.rest);
      FinalizedFlat(c, f.id, f.kids, f.rest);
      SwallowedFlat(a.entries, e, a.rest);
      ListsFlatText(c, a.entries, Swallowed(a.entries, e, a.rest).kids);
    }
  }

  lemma {:induction false} ListsFlatText(c: Entries, d: Entries, f: Forest)
    requires SameText(c, d)
    ensures ListsFlat(c, f) == ListsFlat(d, f)
  {
    if f.Cons? { FlatText(c, d, f.kids); ListsFlatText(c, d, f.rest); }
  }

  // ----- what goes below an entry -----

  /** Under its final condition the entry belongs below `e`, an entry of the symbol `s`. */
  ghost predicate Belongs(e: Entry, s: Symbol, f: Entry) {
    exists x :: ShowsIf(f, x) && s in DependencyCheck.Occurring(x) && (Requires(x, s) || Absorbs(x, e))
  }

  /** A symbol entry without a list takes the leading followers that belong below it, arranged as above, and stops
      at the first that does not. */
  lemma FinalizedTakes(c: Entries, i: nat, r: Forest, s: Symbol) returns (taken: Forest)
    requires Get(c, i).sym == Some(s) && Proper(r)
    ensures var o, e := Finalized(c, i, Nil, r), Get(c, i);
      && Nodes(o.kids) == Raised(c, taken)
      && (forall j | j in Top(taken) :: Belongs(e, s, Get(o.entries, j)))
      && (o.rest != Nil ==> !Belongs(e, s, Get(o.entries, o.rest.id)))
      && Preorder(taken) + Preorder(o.rest) == Preorder(r)
  {
    var e := Get(c, i);
    var a := Swallowed(c, e, r);
    taken := a.kids;
    SwallowedFlat(c, e, r);
    HoistText(c, a.entries, a.kids);
    HoistExactly(c, a.kids);
    SwallowedNests(c, e, r);
    forall j | j in Top(taken) ensures Belongs(e, s, Get(a.entries, j)) {
      NestsExactly(e, Get(a.entries, j), s);
    }
    if a.rest != Nil { NestsExactly(e, Get(a.entries, a.rest.id), s); }
  }

  /** The first follower decides whether anything moves. */
  lemma FirstFollower(c: Entries, i: nat, r: Forest, s: Symbol)
    requires Get(c, i).sym == Some(s) && r.Cons?
    ensures var o := Finalized(c, i, Nil, r);
      if Belongs(Get(c, i), s, Get(c, r.id)) then o.kids.Cons? && o.kids.id == r.id
      else o == Outcome(c, Nil, r)
  {
    NestsExactly(Get(c, i), Get(c, r.id), s);
  }

  // ----- comparisons with n -----

  /** Some test `FOO != n` of a tristate FOO occurs. */
  predicate HasTest(e: Expr) {
    match e
    case Sym(_) => false
    case Cmp(rel, l, r) => rel == Unequal && r == SymNo && l.Type() == Tristate
    case Not(a) => HasTest(a)
    case Bin(_, l, r) => HasTest(l) || HasTest(r)
  }

  lemma {:induction false} TransBoolTests(e: Expr)
    ensures !HasTest(TransBool(e)) && (!HasTest(e) ==> TransBool(e) == e)
  {
    match e
    case Bin(_, l, r) => TransBoolTests(l); TransBoolTests(r);
    case Not(a) => TransBoolTests(a);
    case _ =>
  }

  /** The simplification has nothing left to do. */
  predicate Settled(e: Option<Expr>) { e.Some? ==> Reduced(e.value) == e.value }

  lemma UnderSettled(outer: Option<Expr>, v: Option<Expr>)
    ensures Settled(Under(outer, v))
  {
    var both := AndOpt(outer, TransformOpt(v));
    if both.Some? { ReducedShape(both.value); }
  }

  /** What becomes of a property condition: no such test is left for a symbol that is not tristate; otherwise it is
      simplified and untouched. */
  predicate Tidy(e: Entry, v: Option<Expr>) {
    if e.sym.Some? && e.sym.value.Type() != Tristate then v.Some? ==> !HasTest(v.value) else Settled(v)
  }

  lemma PropertyTidy(e: Entry, dep: Option<Expr>, v: Option<Expr>)
    ensures Tidy(e, PropertyUnder(e, dep, v))
  {
    UnderSettled(dep, v);
    var x := Under(dep, v);
    if x.Some? { TransBoolTests(x.value); }
  }

  /** Every condition of an entry that was handed one is simplified, and tidy if it belongs to a property. */
  lemma ConditionedTidy(e: Entry, outer: Option<Expr>)
    ensures var e' := Conditioned(e, outer);
      && Settled(e'.dep)
      && (e'.prompt.Some? ==> Tidy(e, e'.prompt.value.visible))
      && forall k | 0 <= k < |e'.others| :: Tidy(e, e'.others[k])
  {
    var e' := Conditioned(e, outer);
    UnderSettled(outer, e.dep);
    if e.prompt.Some? { PropertyTidy(e, e'.dep, e.prompt.value.visible); }
    forall k | 0 <= k < |e'.others| ensures Tidy(e, e'.others[k]) { PropertyTidy(e, e'.dep, e.others[k]); }
  }
}
