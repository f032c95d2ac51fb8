/** `menu_finalize`: conditions are handed down the declared menu tree, and entries that depend on the
    entry before them are moved below it. */
module Menus {
  import opened Common
  import opened Expressions
  import opened Transformation
  import opened Equivalence
  import opened Joining
  import opened Duplicates
  import opened Comparison

  datatype Prompt = Prompt(text: bool, visible: Option<Expr>)

  /** `struct menu` without its links; `others` are the conditions of the properties that are not the prompt. */
  datatype Entry = Entry(
    sym: Option<Symbol>, choice: bool, prompt: Option<Prompt>, dep: Option<Expr>, others: seq<Option<Expr>>)

  type Entries = seq<Entry>

  const BLANK := Entry(None, false, None, None, [])

  function Get(c: Entries, i: nat): Entry { if i < |c| then c[i] else BLANK }

  function Set(c: Entries, i: nat, e: Entry): (r: Entries)
    ensures |r| == |c|
  {
    if i < |c| then c[i := e] else c
  }

  // ----- conditions -----

  function AndOpt(a: Option<Expr>, b: Option<Expr>): Option<Expr> {
    if a.None? then b else if b.None? then a else Some(Bin(And, a.value, b.value))
  }

  function TransformOpt(e: Option<Expr>): Option<Expr> {
    match e case None => None case Some(x) => Some(Transform(x))
  }

  function ReduceOpt(e: Option<Expr>): Option<Expr> {
    match e case None => None case Some(x) => Some(Reduced(x))
  }

  /** The condition `v` below the condition `outer`. */
  function Under(outer: Option<Expr>, v: Option<Expr>): Option<Expr> {
    ReduceOpt(AndOpt(outer, TransformOpt(v)))
  }

  predicate TwoValued(e: Entry) { e.sym.Some? && e.sym.value.Type() != Tristate }

  /** A property condition of `e` below the entry's own condition. */
  function PropertyUnder(e: Entry, dep: Option<Expr>, v: Option<Expr>): Option<Expr> {
    match Under(dep, v)
    case None => None
    case Some(x) => Some(if TwoValued(e) then TransBool(x) else x)
  }

  function Conditioned(e: Entry, outer: Option<Expr>): Entry {
    var dep := Under(outer, e.dep);
    e.(dep := dep,
       prompt := match e.prompt case None => None case Some(p) => Some(p.(visible := PropertyUnder(e, dep, p.visible))),
       others := seq(|e.others|, k requires 0 <= k < |e.others| => PropertyUnder(e, dep, e.others[k])))
  }

  /** The condition an entry hands down to its list. */
  function HandedDown(e: Entry): Option<Expr> {
    if e.sym.Some? && e.choice then Some(Sym(e.sym.value))
    else if e.prompt.Some? then e.prompt.value.visible
    else e.dep
  }

  // ----- nesting -----

  /** "The condition is not n", normalised. */
  function NotNo(e: Option<Expr>): Expr { Reduced(Transform(TransCompareOpt(e, Unequal, SymNo).value)) }

  /** What decides whether `e` shows. */
  function Shown(e: Entry): Option<Expr> { if e.prompt.Some? then e.prompt.value.visible else e.dep }

  function Base(e: Entry): Expr { NotNo(if e.prompt.Some? then e.prompt.value.visible else None) }

  /** The following entry `f` goes below the symbol entry `e`. */
  predicate Nests(e: Entry, f: Entry) {
    && e.sym.Some? && Shown(f).Some?
    && ContainsSymbol(Shown(f).value, e.sym.value)
    && (|| DependsSymbol(Shown(f).value, e.sym.value)
        || EliminateEq(NotNo(Shown(f)), Base(e)).1 == Sym(SymYes))
  }

  /** The list of an entry without a prompt text is moved up one level. */
  predicate Hidden(e: Entry) { e.prompt.None? || !e.prompt.value.text }

  // ----- the tree -----

  /** First entry, the entries of its list, and the entries that follow it. */
  datatype Forest = Nil | Cons(id: nat, kids: Forest, rest: Forest)

  /** All entries in declaration order. */
  function Preorder(f: Forest): seq<nat> {
    match f case Nil => [] case Cons(i, k, r) => [i] + (Preorder(k) + Preorder(r))
  }

  function Append(f: Forest, g: Forest): (r: Forest)
    ensures Preorder(r) == Preorder(f) + Preorder(g)
  {
    match f case Nil => g case Cons(i, k, r) => Cons(i, k, Append(r, g))
  }

  /** The last loop of `menu_finalize`: lists of hidden entries are spliced in after them. */
  function Hoist(c: Entries, f: Forest): (r: Forest)
    ensures Preorder(r) == Preorder(f)
    decreases |Preorder(f)|
  {
    match f
    case Nil => Nil
    case Cons(i, k, r) =>
      if k != Nil && Hidden(Get(c, i)) then Cons(i, Nil, Hoist(c, Append(k, r)))
      else Cons(i, k, Hoist(c, r))
  }

  /** Conditions handed down to the entries of one list. */
  function HandDown(c: Entries, outer: Option<Expr>, f: Forest): (r: Entries)
    ensures |r| == |c|
    decreases f
  {
    match f
    case Nil => c
    case Cons(i, _, rest) => HandDown(Set(c, i, Conditioned(Get(c, i), outer)), outer, rest)
  }

  datatype Outcome = Outcome(entries: Entries, kids: Forest, rest: Forest)

  /** `menu_finalize` on the entry `i` with list `k`, followed by `r`. */
  function Finalized(c: Entries, i: nat, k: Forest, r: Forest): (o: Outcome)
    ensures Preorder(o.kids) + Preorder(o.rest) == Preorder(k) + Preorder(r)
    ensures |o.entries| == |c|
    decreases |Preorder(k)| + |Preorder(r)|, 1
  {
    if k != Nil then
      var a := FinalizedList(HandDown(c, HandedDown(Get(c, i)), k), k);
      Outcome(a.entries, Hoist(a.entries, a.kids), r)
    else if Get(c, i).sym.Some? then
      var a := Swallowed(c, Get(c, i), r);
      Outcome(a.entries, Hoist(a.entries, a.kids), a.rest)
    else Outcome(c, Nil, r)
  }

  /** Every entry of a list in turn; each may take over some that follow it. */
  function FinalizedList(c: Entries, f: Forest): (o: Outcome)
    ensures Preorder(o.kids) == Preorder(f) && o.rest == Nil
    ensures |o.entries| == |c|
    decreases |Preorder(f)|, 0
  {
    match f
    case Nil => Outcome(c, Nil, Nil)
    case Cons(j, k, r) =>
      var a := Finalized(c, j, k, r);
      SplitSmaller(j, k, r, a.kids, a.rest);
      var b := FinalizedList(a.entries, a.rest);
      Outcome(b.entries, Cons(j, a.kids, b.kids), Nil)
  }

  /** The following entries that go below the symbol entry `e`, up to the first that does not. */
  function Swallowed(c: Entries, e: Entry, f: Forest): (o: Outcome)
    ensures Preorder(o.kids) + Preorder(o.rest) == Preorder(f)
    ensures |o.entries| == |c|
    decreases |Preorder(f)|, 0
  {
    match f
    case Nil => Outcome(c, Nil, Nil)
    case Cons(j, k, r) =>
      if !Nests(e, Get(c, j)) then Outcome(c, Nil, f)
      else
        var a := Finalized(c, j, k, r);
        SplitSmaller(j, k, r, a.kids, a.rest);
        var b := Swallowed(a.entries, e, a.rest);
        SplitTwice(j, k, r, a.kids, a.rest, b.kids, b.rest);
        Outcome(b.entries, Cons(j, a.kids, b.kids), b.rest)
  }

  lemma {:induction false} SplitSmaller(j: nat, k: Forest, r: Forest, k': Forest, r': Forest)
    requires Preorder(k') + Preorder(r') == Preorder(k) + Preorder(r)
    ensures |Preorder(r')| < |Preorder(Cons(j, k, r))|
    ensures Preorder(Cons(j, k', r')) == Preorder(Cons(j, k, r))
  {
    assert |Preorder(k') + Preorder(r')| == |Preorder(k) + Preorder(r)|;
  }

  lemma {:induction false} SplitTwice(j: nat, k: Forest, r: Forest, k': Forest, r': Forest, x: Forest, y: Forest)
    requires Preorder(k') + Preorder(r') == Preorder(k) + Preorder(r)
    requires Preorder(x) + Preorder(y) == Preorder(r')
    ensures Preorder(Cons(j, k', x)) + Preorder(y) == Preorder(Cons(j, k, r))
  {
    Regroup([j], Preorder(k') + Preorder(x), Preorder(y));
    Regroup(Preorder(k'), Preorder(x), Preorder(y));
  }

  // ----- names and places -----

  function Ids(f: Forest): set<nat> {
    match f case Nil => {} case Cons(i, k, r) => {i} + Ids(k) + Ids(r)
  }

  /** The entries of the list itself. */
  function Top(f: Forest): set<nat> {
    match f case Nil => {} case Cons(i, _, r) => {i} + Top(r)
  }

  /** The entries below the entries of the list. */
  function Below(f: Forest): set<nat> {
    match f case Nil => {} case Cons(_, k, r) => Ids(k) + Below(r)
  }

  /** No entry occurs twice. */
  predicate Proper(f: Forest) {
    match f
    case Nil => true
    case Cons(i, k, r) => i !in Ids(k) && i !in Ids(r) && Ids(k) !! Ids(r) && Proper(k) && Proper(r)
  }

  predicate Distinct(s: seq<nat>) { forall x | x in s :: multiset(s)[x] == 1 }

  lemma {:induction false} IdsPreorder(f: Forest)
    ensures Ids(f) == set x | x in Preorder(f)
  {
    if f.Cons? { IdsPreorder(f.kids); IdsPreorder(f.rest); }
  }

  lemma DistinctConcat(s: seq<nat>, t: seq<nat>)
    ensures Distinct(s + t) <==> Distinct(s) && Distinct(t) && (forall x | x in s :: x !in t)
  {
    assert multiset(s + t) == multiset(s) + multiset(t);
    if Distinct(s + t) {
      assert forall x | x in s || x in t :: x in s + t;
    }
  }

  lemma DistinctNode(i: nat, k: seq<nat>, r: seq<nat>, ks: set<nat>, rs: set<nat>)
    requires ks == (set x | x in k) && rs == (set x | x in r)
    ensures Distinct([i] + (k + r)) <==> i !in ks && i !in rs && ks !! rs && Distinct(k) && Distinct(r)
  {
    DistinctConcat(k, r);
    DistinctConcat([i], k + r);
    assert (forall x | x in k :: x !in r) <==> ks !! rs by {
      if ks !! rs { assert forall x | x in k :: x in ks && x !in rs; }
    }
    assert i !in k + r <==> i !in ks && i !in rs;
    assert (forall x | x in [i] :: x !in k + r) <==> i !in k + r by { assert i in [i]; }
  }

  lemma {:induction false} ProperIffDistinct(f: Forest)
    ensures Proper(f) <==> Distinct(Preorder(f))
  {
    if f.Cons? {
      ProperIffDistinct(f.kids);
      ProperIffDistinct(f.rest);
      IdsPreorder(f.kids);
      IdsPreorder(f.rest);
      DistinctNode(f.id, Preorder(f.kids), Preorder(f.rest), Ids(f.kids), Ids(f.rest));
    }
  }

  /** Two forests with the same preorder have the same names, each as often. */
  lemma {:induction false} SamePreorder(f: Forest, g: Forest)
    requires Preorder(f) == Preorder(g)
    ensures Ids(f) == Ids(g) && (Proper(f) <==> Proper(g))
  {
    IdsPreorder(f); IdsPreorder(g);
    ProperIffDistinct(f); ProperIffDistinct(g);
  }

  lemma {:induction false} IdsTopBelow(f: Forest)
    ensures Ids(f) == Top(f) + Below(f)
    ensures Proper(f) ==> Top(f) !! Below(f)
  {
    if f.Cons? { IdsTopBelow(f.kids); IdsTopBelow(f.rest); }
  }

  // ----- the conditions are those of the declared tree -----

  /** Conditions handed down the declared tree, list by list, with nothing moved. */
  function Spread(c: Entries, f: Forest): (r: Entries)
    ensures |r| == |c|
    decreases f, 0
  {
    match f
    case Nil => c
    case Cons(j, k, r) => Spread(SpreadBelow(c, j, k), r)
  }

  function SpreadBelow(c: Entries, j: nat, k: Forest): (r: Entries)
    ensures |r| == |c|
    decreases k, 1
  {
    Spread(HandDown(c, HandedDown(Get(c, j)), k), k)
  }

  lemma {:induction false} FinalizedSpreads(c: Entries, i: nat, k: Forest, r: Forest)
    ensures var o := Finalized(c, i, k, r); Spread(o.entries, o.rest) == Spread(SpreadBelow(c, i, k), r)
    decreases |Preorder(k)| + |Preorder(r)|, 1
  {
    if k != Nil {
      ListSpreads(HandDown(c, HandedDown(Get(c, i)), k), k);
    } else if Get(c, i).sym.Some? {
      SwallowedSpreads(c, Get(c, i), r);
    }
  }

  /** Moving entries does not change the conditions that any entry ends up with. */
  lemma {:induction false} ListSpreads(c: Entries, f: Forest)
    ensures FinalizedList(c, f).entries == Spread(c, f)
    decreases |Preorder(f)|, 0
  {
    if f.Cons? {
      var a := Finalized(c, f.id, f.kids, f.rest);
      SplitSmaller(f.id, f.kids, f.rest, a.kids, a.rest);
      FinalizedSpreads(c, f.id, f.kids, f.rest);
      ListSpreads(a.entries, a.rest);
    }
  }

  lemma {:induction false} SwallowedSpreads(c: Entries, e: Entry, f: Forest)
    ensures var o := Swallowed(c, e, f); Spread(o.entries, o.rest) == Spread(c, f)
    decreases |Preorder(f)|, 0
  {
    if f.Cons? && Nests(e, Get(c, f.id)) {
      var a := Finalized(c, f.id, f.kids, f.rest);
      SplitSmaller(f.id, f.kids, f.rest, a.kids, a.rest);
      FinalizedSpreads(c, f.id, f.kids, f.rest);
      SwallowedSpreads(a.entries, e, a.rest);
    }
  }

  // ----- what the conditions mean -----

  /** The entry's own condition below a condition of value `outer`, as declared. */
  function Own(e: Entry, outer: Tri, env: Assignment): Tri { Min(outer, ValueOpt(e.dep, env)) }

  /** The value an entry should hand down to its list. */
  function HandedValue(e: Entry, outer: Tri, env: Assignment): Tri {
    if e.sym.Some? && e.choice then env(e.sym.value).tri
    else if e.prompt.Some? then Min(Own(e, outer, env), ValueOpt(e.prompt.value.visible, env))
    else Own(e, outer, env)
  }

  /** The computed condition `after` of a property stands for the declared `before` below the entry's own condition. */
  ghost predicate PropertyMeans(e: Entry, before: Option<Expr>, after: Option<Expr>, outer: Tri, env: Assignment) {
    var v := ValueOpt(after, env);
    Refines(Min(Own(e, outer, env), ValueOpt(before, env)), if TwoValued(e) then Promote(v) else v)
  }

  ghost predicate EntryMeans(e: Entry, e': Entry, outer: Tri, env: Assignment) {
    && Refines(Own(e, outer, env), ValueOpt(e'.dep, env))
    && e'.prompt.Some? == e.prompt.Some?
    && (e.prompt.Some? ==> PropertyMeans(e, e.prompt.value.visible, e'.prompt.value.visible, outer, env))
    && |e'.others| == |e.others|
    && forall k | 0 <= k < |e.others| :: PropertyMeans(e, e.others[k], e'.others[k], outer, env)
  }

  /** Every condition in the tree stands for the conjunction of everything declared on the way to it. */
  ghost predicate Means(c: Entries, c': Entries, f: Forest, outer: Tri, env: Assignment) {
    match f
    case Nil => true
    case Cons(j, k, r) =>
      && EntryMeans(Get(c, j), Get(c', j), outer, env)
      && Means(c, c', k, HandedValue(Get(c, j), outer, env), env)
      && Means(c, c', r, outer, env)
  }

  predicate NnfOpt(e: Option<Expr>) { e.Some? ==> Nnf(e.value) }

  lemma UnderMeans(outer: Option<Expr>, v: Option<Expr>, tri: Tri, env: Assignment)
    requires WellTyped(env) && NnfOpt(outer) && Refines(tri, ValueOpt(outer, env))
    ensures Refines(Min(tri, ValueOpt(v, env)), ValueOpt(Under(outer, v), env))
    ensures NnfOpt(Under(outer, v))
  {
    if v.Some? {
      TransformValue(v.value, env);
      TransformNormal(v.value);
      NormalImpliesNnf(Transform(v.value));
    }
    var both := AndOpt(outer, TransformOpt(v));
    ApplyRefines(And, ValueOpt(v, env), tri, ValueOpt(outer, env));
    if both.Some? {
      ReducedRefines(both.value, env);
      ReducedShape(both.value);
    }
  }

  lemma {:induction false} TransBoolNnf(e: Expr)
    requires Nnf(e)
    ensures Nnf(TransBool(e))
  {
    if e.Bin? { TransBoolNnf(e.left); TransBoolNnf(e.right); }
  }

  lemma PropertyUnderMeans(e: Entry, dep: Option<Expr>, v: Option<Expr>, outer: Tri, env: Assignment)
    requires WellTyped(env) && NnfOpt(dep) && Refines(Own(e, outer, env), ValueOpt(dep, env))
    ensures PropertyMeans(e, v, PropertyUnder(e, dep, v), outer, env)
    ensures NnfOpt(PropertyUnder(e, dep, v))
  {
    UnderMeans(dep, v, Own(e, outer, env), env);
    var x := Under(dep, v);
    if TwoValued(e) && x.Some? {
      TransBoolPromoted(x.value, env);
      TransBoolNnf(x.value);
    }
  }

  lemma ConditionedMeans(e: Entry, outer: Option<Expr>, tri: Tri, env: Assignment)
    requires WellTyped(env) && NnfOpt(outer) && Refines(tri, ValueOpt(outer, env))
    ensures EntryMeans(e, Conditioned(e, outer), tri, env)
    ensures NnfOpt(HandedDown(Conditioned(e, outer)))
    ensures (e.sym.Some? ==> e.choice) ==>
      Refines(HandedValue(e, tri, env), ValueOpt(HandedDown(Conditioned(e, outer)), env))
  {
    UnderMeans(outer, e.dep, tri, env);
    var dep := Under(outer, e.dep);
    if e.prompt.Some? { PropertyUnderMeans(e, dep, e.prompt.value.visible, tri, env); }
    forall k | 0 <= k < |e.others|
      ensures PropertyMeans(e, e.others[k], Conditioned(e, outer).others[k], tri, env)
    {
      PropertyUnderMeans(e, dep, e.others[k], tri, env);
    }
  }

  // ----- over the whole tree -----

  predicate Within(f: Forest, n: nat) {
    match f case Nil => true case Cons(i, k, r) => i < n && Within(k, n) && Within(r, n)
  }

  /** Only choices and entries without a symbol are declared with a list of their own. */
  predicate Declared(c: Entries, f: Forest) {
    match f
    case Nil => true
    case Cons(i, k, r) =>
      (k != Nil && Get(c, i).sym.Some? ==> Get(c, i).choice) && Declared(c, k) && Declared(c, r)
  }

  /** The list itself has its conditions, what is below it does not yet. */
  ghost predicate TopDone(c: Entries, c': Entries, outer: Option<Expr>, f: Forest) {
    match f
    case Nil => true
    case Cons(i, k, r) =>
      && Get(c', i) == Conditioned(Get(c, i), outer)
      && Same(c, c', Ids(k))
      && TopDone(c, c', outer, r)
  }

  ghost predicate Same(c: Entries, c': Entries, ids: set<nat>) { forall x | x in ids :: Get(c', x) == Get(c, x) }

  lemma {:induction false} HandDownFrame(c: Entries, outer: Option<Expr>, f: Forest, x: nat)
    requires x !in Top(f)
    ensures Get(HandDown(c, outer, f), x) == Get(c, x)
    decreases f
  {
    if f.Cons? { HandDownFrame(Set(c, f.id, Conditioned(Get(c, f.id), outer)), outer, f.rest, x); }
  }

  lemma {:induction false} TopInIds(f: Forest)
    ensures Top(f) <= Ids(f) && Below(f) <= Ids(f)
  {
    if f.Cons? { TopInIds(f.rest); }
  }

  /** `c` agrees with `c0` on the list and all below it before the conditions are handed down. */
  lemma {:induction false} HandDownDone(c0: Entries, c: Entries, outer: Option<Expr>, f: Forest)
    requires Proper(f) && Within(f, |c|) && Same(c0, c, Ids(f))
    ensures TopDone(c0, HandDown(c, outer, f), outer, f)
    decreases f
  {
    if f.Cons? {
      var d := Set(c, f.id, Conditioned(Get(c, f.id), outer));
      HandDownDone(c0, d, outer, f.rest);
      TopInIds(f.rest);
      forall x | x in {f.id} + Ids(f.kids) ensures Get(HandDown(d, outer, f.rest), x) == Get(d, x) {
        HandDownFrame(d, outer, f.rest, x);
      }
    }
  }

  lemma {:induction false} SpreadFrame(c: Entries, f: Forest, x: nat)
    requires x !in Below(f)
    ensures Get(Spread(c, f), x) == Get(c, x)
    decreases f
  {
    if f.Cons? {
      var d := HandDown(c, HandedDown(Get(c, f.id)), f.kids);
      TopInIds(f.kids);
      HandDownFrame(c, HandedDown(Get(c, f.id)), f.kids, x);
      SpreadFrame(d, f.kids, x);
      SpreadFrame(SpreadBelow(c, f.id, f.kids), f.rest, x);
    }
  }

  lemma {:induction false} TopDoneFrame(c0: Entries, c: Entries, c': Entries, outer: Option<Expr>, f: Forest)
    requires TopDone(c0, c, outer, f) && Same(c, c', Ids(f))
    ensures TopDone(c0, c', outer, f)
    decreases f
  {
    if f.Cons? { TopDoneFrame(c0, c, c', outer, f.rest); }
  }

  lemma {:induction false} MeansFrame(c0: Entries, c: Entries, c': Entries, f: Forest, outer: Tri, env: Assignment)
    requires Means(c0, c, f, outer, env) && Same(c, c', Ids(f))
    ensures Means(c0, c', f, outer, env)
    decreases f
  {
    if f.Cons? {
      MeansFrame(c0, c, c', f.kids, HandedValue(Get(c0, f.id), outer, env), env);
      MeansFrame(c0, c, c', f.rest, outer, env);
    }
  }

  lemma {:induction false} SpreadMeans(c0: Entries, c: Entries, f: Forest, outer: Option<Expr>, tri: Tri, env: Assignment)
    requires WellTyped(env) && NnfOpt(outer) && Refines(tri, ValueOpt(outer, env))
    requires Proper(f) && Within(f, |c|) && Declared(c0, f) && TopDone(c0, c, outer, f)
    ensures Means(c0, Spread(c, f), f, tri, env)
    decreases f
  {
    if f.Cons? {
      var e, handed := Get(c0, f.id), HandedDown(Get(c, f.id));
      ConditionedMeans(e, outer, tri, env);
      var d := HandDown(c, handed, f.kids);
      HandDownDone(c0, c, handed, f.kids);
      if f.kids != Nil { SpreadMeans(c0, d, f.kids, handed, HandedValue(e, tri, env), env); }
      var b := SpreadBelow(c, f.id, f.kids);
      TopInIds(f.kids); TopInIds(f.rest);
      forall x | x !in Ids(f.kids) ensures Get(b, x) == Get(c, x) {
        HandDownFrame(c, handed, f.kids, x);
        SpreadFrame(d, f.kids, x);
      }
      TopDoneFrame(c0, c, b, outer, f.rest);
      SpreadMeans(c0, b, f.rest, outer, tri, env);
      forall x | x !in Ids(f.rest) ensures Get(Spread(b, f.rest), x) == Get(b, x) {
        SpreadFrame(b, f.rest, x);
      }
      MeansFrame(c0, b, Spread(b, f.rest), f.kids, HandedValue(e, tri, env), env);
    }
  }

  /** After `menu_finalize` on an entry with a list, every condition below it stands for the conjunction of
      everything declared on the way: definite values are exactly that conjunction's. */
  lemma FinalizedMeans(c: Entries, i: nat, k: Forest, r: Forest, env: Assignment)
    requires WellTyped(env) && k != Nil
    requires Proper(k) && Within(k, |c|) && Declared(c, k) && NnfOpt(HandedDown(Get(c, i)))
    ensures Means(c, Finalized(c, i, k, r).entries, k, ValueOpt(HandedDown(Get(c, i)), env), env)
  {
    var outer := HandedDown(Get(c, i));
    var d := HandDown(c, outer, k);
    HandDownDone(c, c, outer, k);
    SpreadMeans(c, d, k, outer, ValueOpt(outer, env), env);
    ListSpreads(d, k);
  }

  // ----- nesting is justified -----

  /** A missing condition reads as `y`. */
  function ReadOpt(e: Option<Expr>, t: Tri, env: Assignment): Tri {
    match e case None => Yes case Some(x) => Read(x, t, env)
  }

  /** What the nesting test compares, for every condition. */
  lemma NotNoMeans(e: Option<Expr>, env: Assignment)
    requires WellTyped(env)
    ensures Value(NotNo(e), env) == Truth(ReadOpt(e, No, env) != No)
  {
    var x := TransCompareOpt(e, Unequal, SymNo).value;
    if e.Some? { TransCompareReads(e.value, Unequal, SymNo, env); } else { TransCompareMissing(Unequal, SymNo, env); }
    TransformValue(x, env);
    ReducedRefines(Transform(x), env);
  }

  /** An entry nested through a plain dependency cannot show while the symbol is `n`; one nested because the
      parent's condition was absorbed has a normalised condition at most the parent's. */
  lemma NestingJustified(e: Entry, f: Entry, env: Assignment)
    requires WellTyped(env) && Nests(e, f)
    ensures DependsSymbol(Shown(f).value, e.sym.value) && e.sym.value.IsLogic() && env(e.sym.value).tri == No ==>
      ValueOpt(Shown(f), env) == No
    ensures !DependsSymbol(Shown(f).value, e.sym.value) ==> Leq(Value(NotNo(Shown(f)), env), Value(Base(e), env))
  {
    if DependsSymbol(Shown(f).value, e.sym.value) {
      if e.sym.value.IsLogic() && env(e.sym.value).tri == No { DependsSymbolNo(Shown(f).value, e.sym.value, env); }
    } else {
      EliminateEqToYes(NotNo(Shown(f)), Base(e), env);
    }
  }

  /** In terms of the conditions: while an entry nested by absorption reads as shown, with negated `m` taken for
      `n`, so does its new parent; and a parent condition in negation normal form then holds. */
  lemma NestedShowsParent(e: Entry, f: Entry, env: Assignment)
    requires WellTyped(env) && Nests(e, f) && !DependsSymbol(Shown(f).value, e.sym.value)
    requires e.prompt.Some? && ReadOpt(Shown(f), No, env) != No
    ensures ReadOpt(e.prompt.value.visible, No, env) != No
    ensures var v := e.prompt.value.visible; (v.Some? ==> Nnf(v.value) && Logical(v.value)) ==> ValueOpt(v, env) != No
  {
    var v := e.prompt.value.visible;
    NestingJustified(e, f, env);
    NotNoMeans(Shown(f), env);
    NotNoMeans(v, env);
    if v.Some? && Nnf(v.value) && Logical(v.value) { ReadBounds(v.value, env); }
  }

  lemma SampleTransforms(l: Expr, q: Expr)
    requires l.Cmp? && q.Cmp? && l.lhs.Type() != Boolean && q.lhs.Type() != Boolean
    ensures Transform(Not(Bin(Or, l, Not(q)))) == Bin(And, l.(rel := Flip(l.rel)), q)
  {
    var q' := q.(rel := Flip(q.rel));
    assert Transform(l) == l && Transform(q) == q;
    assert Transform(Not(q)) == q';
    assert Transform(Bin(Or, l, Not(q))) == Bin(Or, l, q');
    assert Transform(Not(l)) == l.(rel := Flip(l.rel)) && Transform(Not(q')) == q;
  }

  /** The condition `!A && FOO != y` is compared as `A = n && FOO != y`, and absorbs `A = n`. */
  lemma SampleAbsorbs(a: Symbol, foo: Symbol)
    requires a.Type() == Tristate && foo.Type() == Tristate && a != foo
    ensures var p, q := Cmp(Equal, a, SymNo), Cmp(Unequal, foo, SymYes);
      EliminateEq(NotNo(Some(Bin(And, Not(Sym(a)), q))), NotNo(Some(p))).1 == Sym(SymYes)
  {
    var p, q, l := Cmp(Equal, a, SymNo), Cmp(Unequal, foo, SymYes), Cmp(Unequal, a, SymNo);
    assert TransCompare(Not(Sym(a)), Equal, SymNo).value == l;
    assert TransCompare(q, Equal, SymNo).value == Not(q);
    assert TransCompare(Bin(And, Not(Sym(a)), q), Unequal, SymNo).value == Not(Bin(Or, l, Not(q)));
    SampleTransforms(l, q);
    ReducedPair(And, p, q);
    assert NotNo(Some(p)) == p;
    PairAbsorbs(p, q);
  }

  lemma PairAbsorbs(p: Expr, q: Expr)
    requires p.Cmp? && q.Cmp?
    ensures EliminateEq(Bin(And, p, q), p).1 == Sym(SymYes)
  {
    assert EliminateSlots(And, p, p) == (Sym(SymYes), Sym(SymYes));
    assert EliminateSlots(And, q, Sym(SymYes)) == (q, Sym(SymYes));
    assert EliminateSlots(And, Bin(And, p, q), p).1 == Sym(SymYes);
  }

  /** A follower `!A && FOO != y` goes below FOO, which shows while `A = n`; with A at `m` it shows alone. */
  lemma NestedShowsAlone(a: Symbol, foo: Symbol, env: Assignment)
    requires a.Type() == Tristate && foo.Type() == Tristate && a != foo
    requires WellTyped(env) && env(a).tri == Mod && env(foo).tri != Yes
    ensures
      var e := Entry(Some(foo), false, Some(Prompt(true, Some(Cmp(Equal, a, SymNo)))), None, []);
      var f := BLANK.(prompt := Some(Prompt(true, Some(Bin(And, Not(Sym(a)), Cmp(Unequal, foo, SymYes))))));
      && Nests(e, f) && !DependsSymbol(Shown(f).value, foo)
      && ValueOpt(Shown(f), env) == Mod && ValueOpt(e.prompt.value.visible, env) == No
  {
    var q := Cmp(Unequal, foo, SymYes);
    CmpMeaning(Equal, a, SymNo, env);
    CmpMeaning(Unequal, foo, SymYes, env);
    SampleAbsorbs(a, foo);
    assert Value(Not(Sym(a)), env) == Mod;
    assert Value(Bin(And, Not(Sym(a)), q), env) == Mod;
    assert ContainsSymbol(q, foo);
  }

  /** What is left over is a tail of the list, and finalising changes conditions only below entries it finalises. */
  lemma {:induction false} FinalizedFrame(c: Entries, i: nat, k: Forest, r: Forest, x: nat)
    requires x !in Ids(k) && x !in Below(r)
    ensures var o := Finalized(c, i, k, r); Get(o.entries, x) == Get(c, x) && x !in Below(o.rest)
    decreases |Preorder(k)| + |Preorder(r)|, 1
  {
    if k != Nil {
      var d := HandDown(c, HandedDown(Get(c, i)), k);
      TopInIds(k);
      HandDownFrame(c, HandedDown(Get(c, i)), k, x);
      ListSpreads(d, k);
      SpreadFrame(d, k, x);
    } else if Get(c, i).sym.Some? {
      SwallowedFrame(c, Get(c, i), r, x);
    }
  }

  lemma {:induction false} SwallowedFrame(c: Entries, e: Entry, f: Forest, x: nat)
    requires x !in Below(f)
    ensures var o := Swallowed(c, e, f); Get(o.entries, x) == Get(c, x) && x !in Below(o.rest)
    decreases |Preorder(f)|, 0
  {
    if f.Cons? && Nests(e, Get(c, f.id)) {
      var a := Finalized(c, f.id, f.kids, f.rest);
      SplitSmaller(f.id, f.kids, f.rest, a.kids, a.rest);
      FinalizedFrame(c, f.id, f.kids, f.rest, x);
      SwallowedFrame(a.entries, e, a.rest, x);
    }
  }

  /** Exactly the leading entries that nest are taken, by the conditions they end up with. */
  lemma {:induction false} SwallowedNests(c: Entries, e: Entry, f: Forest)
    requires Proper(f)
    ensures var o := Swallowed(c, e, f);
      && (forall j | j in Top(o.kids) :: Nests(e, Get(o.entries, j)))
      && (o.rest != Nil ==> !Nests(e, Get(o.entries, o.rest.id)))
    decreases |Preorder(f)|
  {
    if f.Cons? && Nests(e, Get(c, f.id)) {
      var a := Finalized(c, f.id, f.kids, f.rest);
      SplitSmaller(f.id, f.kids, f.rest, a.kids, a.rest);
      SamePreorder(f, Cons(f.id, a.kids, a.rest));
      SwallowedNests(a.entries, e, a.rest);
      TopInIds(f.rest);
      FinalizedFrame(c, f.id, f.kids, f.rest, f.id);
      SwallowedFrame(a.entries, e, a.rest, f.id);
    }
  }
}
