/** What the dependency check is worth to the evaluator. */
module CheckedConfiguration {
  import opened Common
  import opened Expressions
  import opened Comparison
  import opened SymbolTable
  import opened Evaluator
  import opened DependencyCheck

  /** No choice, and prompts are not choice, select or deselect properties. */
  predicate Followable(d: SymbolDef) {
    !d.choice && forall p | p in d.props && p.text :: p.ty !in {ChoiceProp, SelectProp, DeselectProp}
  }

  /** ... and the check follows no properties but prompts and defaults. */
  predicate Plain(d: SymbolDef) {
    && Followable(d)
    && forall p | p in d.props && p.ty !in {ChoiceProp, SelectProp, DeselectProp} :: p.text || p.ty == DefaultProp
  }

  function OrOpt(a: Option<Expr>, b: Option<Expr>): Option<Expr> {
    if a.None? then b else if b.None? then a else Some(Bin(Or, a.value, b.value))
  }

  /** The definition with its deselects followed like its selects. */
  function Also(d: SymbolDef): SymbolDef { d.(revDep := OrOpt(d.revDep, d.revDepInv)) }

  function Extended(defs: seq<SymbolDef>): seq<SymbolDef> {
    seq(|defs|, i requires 0 <= i < |defs| => Also(defs[i]))
  }

  /** Without deselects nothing is added. */
  lemma NothingAdded(defs: seq<SymbolDef>)
    requires forall d | d in defs :: d.revDepInv.None?
    ensures Extended(defs) == defs
  {
    forall i | 0 <= i < |defs| ensures Also(defs[i]) == defs[i] { assert defs[i] in defs; }
  }

  /** With deselects followed like selects the check follows what the evaluator reads, and no more. */
  lemma ReadsAreFollowed(d: SymbolDef, s: Symbol)
    requires Followable(d)
    ensures References(d, s) ==> Follows(Also(d), s)
    ensures Plain(d) && Follows(Also(d), s) ==> References(d, s)
  {
    assert Mentions(Also(d).revDep, s) <==> Mentions(d.revDep, s) || Mentions(d.revDepInv, s);
    forall p | p in d.props ensures PropertyReads(p, s) ==> PropertyFollowed(Also(d), p, s) {}
    forall p | p in d.props ensures Plain(d) && PropertyFollowed(Also(d), p, s) ==> PropertyReads(p, s) {}
  }

  lemma EdgeExtends(defs: seq<SymbolDef>, s: Symbol, t: Symbol)
    requires Edge(defs, s, t)
    ensures Edge(Extended(defs), s, t)
  {
    var d := defs[s.id];
    if !Mentions(d.revDep, t) {
      var q :| q in d.props && PropertyFollowed(d, q, t);
      assert PropertyFollowed(Also(d), q, t);
    }
  }

  lemma {:induction false} PathExtends(defs: seq<SymbolDef>, p: seq<Symbol>)
    requires IsPath(defs, p)
    ensures IsPath(Extended(defs), p)
  {
    if |p| >= 2 {
      EdgeExtends(defs, p[0], p[1]);
      PathExtends(defs, p[1..]);
    }
  }

  /** What the check follows without deselects it follows with them too: a warning is never wrong. */
  lemma CycleExtends(defs: seq<SymbolDef>)
    requires HasCycle(defs)
    ensures HasCycle(Extended(defs))
  {
    var p: seq<Symbol> :| |p| >= 2 && IsPath(defs, p) && p[0] == p[|p| - 1];
    PathExtends(defs, p);
  }

  lemma RankOf(defs: seq<SymbolDef>, done: set<Symbol>, finish: map<Symbol, nat>, clock: nat) returns (rank: seq<nat>)
    requires var defs' := Extended(defs); Table(defs') <= done && Ordered(defs', done, finish, clock) && WellFormed(defs')
    requires forall d | d in defs :: Followable(d)
    ensures Acyclic(defs, rank)
  {
    var defs' := Extended(defs);
    forall i | 0 <= i < |defs| ensures Config(i, defs[i].ty) in done { assert Config(i, defs'[i].ty) in Table(defs'); }
    rank := seq(|defs|, i requires 0 <= i < |defs| => finish[Config(i, defs[i].ty)]);
    UniverseClosed(defs');
    forall i, s | 0 <= i < |defs| && References(defs[i], s)
      ensures Known(defs, s) && (s.Config? ==> rank[s.id] < rank[i])
    {
      var t := Config(i, defs[i].ty);
      ReadsAreFollowed(defs[i], s);
      assert t in Universe(defs') && Edge(defs', t, s);
    }
    forall i | 0 <= i < |defs| ensures !defs[i].choice && LooksBelow(defs, rank, defs[i], rank[i]) { assert defs[i] in defs; }
  }

  /** Ranks fall along a path, so a cycle admits none. */
  lemma {:induction false} PathFalls(defs: seq<SymbolDef>, rank: seq<nat>, p: seq<Symbol>)
    requires Acyclic(defs, rank) && (forall d | d in defs :: Plain(d))
    requires |p| >= 2 && IsPath(Extended(defs), p)
    ensures p[0].Config? && p[0].id < |defs|
    ensures var t := p[|p| - 1]; t.Config? && t.id < |defs| ==> rank[t.id] < rank[p[0].id]
  {
    var defs' := Extended(defs);
    assert Edge(defs', p[0], p[1]);
    var i := p[0].id;
    assert defs[i] in defs && Plain(defs[i]);
    ReadsAreFollowed(defs[i], p[1]);
    assert LooksBelow(defs, rank, defs[i], rank[i]);
    if |p| > 2 { PathFalls(defs, rank, p[1..]); }
  }

  lemma CycleForbidsRank(defs: seq<SymbolDef>, rank: seq<nat>)
    requires (forall d | d in defs :: Plain(d)) && HasCycle(Extended(defs))
    ensures !Acyclic(defs, rank)
  {
    if Acyclic(defs, rank) {
      var p: seq<Symbol> :| |p| >= 2 && IsPath(Extended(defs), p) && p[0] == p[|p| - 1];
      PathFalls(defs, rank, p);
      assert false;
    }
  }

  /** The same sweep over the extended table decides exactly whether the evaluator's dependencies are acyclic. */
  method CheckForEvaluation(defs: seq<SymbolDef>) returns (ok: bool, ghost rank: seq<nat>)
    requires WellFormed(Extended(defs)) && forall d | d in defs :: Followable(d)
    ensures ok <==> !HasCycle(Extended(defs))
    ensures ok ==> Acyclic(defs, rank)
    ensures (forall d | d in defs :: Plain(d)) ==> (ok <==> exists r :: Acyclic(defs, r))
  {
    var warnings, finish, clock := Sweep(Extended(defs));
    ok, rank := warnings == 0, [];
    if ok {
      ghost var done :| Table(Extended(defs)) <= done && Ordered(Extended(defs), done, finish, clock);
      rank := RankOf(defs, done, finish, clock);
    } else if forall d | d in defs :: Plain(d) {
      forall r ensures !Acyclic(defs, r) { CycleForbidsRank(defs, r); }
    }
  }

  /** A symbol that deselects itself passes the check, although its own value is part of its meaning. */
  lemma DeselectNotFollowed(ty: SymbolType)
    ensures var self := Config(0, ty);
      var defs := [SymbolDef("SELF", ty, false, [], None, Some(Sym(self)))];
      !HasCycle(defs) && forall rank :: !Acyclic(defs, rank)
  {
    var self := Config(0, ty);
    var defs := [SymbolDef("SELF", ty, false, [], None, Some(Sym(self)))];
    forall p: seq<Symbol> | |p| >= 2 ensures !IsPath(defs, p) {
      assert !Edge(defs, p[0], p[1]);
    }
    forall rank ensures !Acyclic(defs, rank) {
      assert References(defs[0], self);
    }
  }
}
