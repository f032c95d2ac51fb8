/** `sym_check_deps` and `sym_check_expr_deps`: a depth-first search with CHECK/CHECKED marks. */
module DependencyCheck {
  import opened Common
  import opened Expressions
  import opened Comparison
  import opened SymbolTable

  // ----- the graph the search walks -----

  predicate PropertyFollowed(d: SymbolDef, p: Property, t: Symbol) {
    && p.ty !in {ChoiceProp, SelectProp, DeselectProp}
    && (Mentions(p.visible, t) || (p.ty == DefaultProp && !d.choice && Mentions(p.expr, t)))
  }

  /** The search goes from a symbol with definition `d` to `t`. Deselects are not followed. */
  predicate Follows(d: SymbolDef, t: Symbol) {
    Mentions(d.revDep, t) || exists p | p in d.props :: PropertyFollowed(d, p, t)
  }

  predicate Edge(defs: seq<SymbolDef>, s: Symbol, t: Symbol) {
    s.Config? && Known(defs, s) && Follows(defs[s.id], t)
  }

  predicate IsPath(defs: seq<SymbolDef>, p: seq<Symbol>) {
    |p| >= 2 ==> Edge(defs, p[0], p[1]) && IsPath(defs, p[1..])
  }

  ghost predicate HasCycle(defs: seq<SymbolDef>) {
    exists p: seq<Symbol> :: |p| >= 2 && IsPath(defs, p) && p[0] == p[|p| - 1]
  }

  /** All symbols that occur belong to a finite set that is closed under edges. */
  ghost predicate Closed(defs: seq<SymbolDef>, universe: set<Symbol>) {
    && (forall s, t | s in universe && Edge(defs, s, t) :: t in universe)
    && (forall s | s in universe :: Known(defs, s))
  }

  // ----- the symbols that occur -----

  function Occurring(e: Expr): set<Symbol> {
    match e
    case Sym(s) => {s}
    case Cmp(_, l, r) => {l, r}
    case Not(a) => Occurring(a)
    case Bin(_, l, r) => Occurring(l) + Occurring(r)
  }

  lemma {:induction false} OccurringContains(e: Expr, s: Symbol)
    ensures s in Occurring(e) <==> ContainsSymbol(e, s)
  {
    match e
    case Bin(_, l, r) => OccurringContains(l, s); OccurringContains(r, s);
    case Not(a) => OccurringContains(a, s);
    case _ =>
  }

  function OccurringOpt(e: Option<Expr>): set<Symbol> { if e.Some? then Occurring(e.value) else {} }

  function OccurringIn(d: SymbolDef): set<Symbol> {
    OccurringOpt(d.revDep) + (set p, s | p in d.props && s in OccurringOpt(p.visible) + OccurringOpt(p.expr) :: s)
  }

  function Table(defs: seq<SymbolDef>): set<Symbol> { set i | 0 <= i < |defs| :: Config(i, defs[i].ty) }

  function Universe(defs: seq<SymbolDef>): set<Symbol> {
    Table(defs) + (set i, s | 0 <= i < |defs| && s in OccurringIn(defs[i]) :: s)
  }

  /** Expressions mention table symbols under their own types, and constants. */
  ghost predicate WellFormed(defs: seq<SymbolDef>) {
    forall s | s in Universe(defs) :: Known(defs, s)
  }

  lemma UniverseClosed(defs: seq<SymbolDef>)
    requires WellFormed(defs)
    ensures Closed(defs, Universe(defs))
  {
    forall s, t | s in Universe(defs) && Edge(defs, s, t)
      ensures t in Universe(defs)
    {
      var d := defs[s.id];
      if Mentions(d.revDep, t) {
        OccurringContains(d.revDep.value, t);
      } else {
        var p :| p in d.props && PropertyFollowed(d, p, t);
        if Mentions(p.visible, t) { OccurringContains(p.visible.value, t); } else { OccurringContains(p.expr.value, t); }
        assert t in OccurringOpt(p.visible) + OccurringOpt(p.expr);
      }
      assert t in OccurringIn(d);
    }
  }

  // ----- finishing numbers -----

  /** The finished symbols are numbered so that edges lead to smaller numbers. */
  ghost predicate Ordered(defs: seq<SymbolDef>, done: set<Symbol>, finish: map<Symbol, nat>, clock: nat) {
    && done <= finish.Keys
    && (forall s | s in done :: finish[s] < clock)
    && (forall s, t | s in done && Edge(defs, s, t) :: t in done && finish[t] < finish[s])
  }

  lemma {:induction false} PathDescends(defs: seq<SymbolDef>, done: set<Symbol>, finish: map<Symbol, nat>, clock: nat, p: seq<Symbol>)
    requires Ordered(defs, done, finish, clock) && IsPath(defs, p) && |p| >= 2 && p[0] in done
    ensures p[|p| - 1] in done && finish[p[|p| - 1]] < finish[p[0]]
  {
    if |p| > 2 { PathDescends(defs, done, finish, clock, p[1..]); }
  }

  /** A symbol all of whose successors are finished gets the next number. */
  lemma FinishNext(defs: seq<SymbolDef>, done: set<Symbol>, finish: map<Symbol, nat>, clock: nat, s: Symbol)
    requires Ordered(defs, done, finish, clock) && s !in done
    requires forall t | Edge(defs, s, t) :: t in done
    ensures Ordered(defs, done + {s}, finish[s := clock], clock + 1)
  {}

  lemma {:induction false} PathPush(defs: seq<SymbolDef>, stack: seq<Symbol>, s: Symbol)
    requires IsPath(defs, stack) && (stack != [] ==> Edge(defs, stack[|stack| - 1], s))
    ensures IsPath(defs, stack + [s])
  {
    if |stack| >= 1 {
      PathPush(defs, stack[1..], s);
      assert (stack + [s])[1..] == stack[1..] + [s];
    }
  }

  lemma {:induction false} PathFrom(defs: seq<SymbolDef>, p: seq<Symbol>, k: nat)
    requires IsPath(defs, p) && k < |p|
    ensures IsPath(defs, p[k..])
  {
    if k > 0 {
      PathFrom(defs, p[1..], k - 1);
      assert p[1..][k - 1..] == p[k..];
    }
  }

  lemma EdgeFromTable(defs: seq<SymbolDef>, s: Symbol, t: Symbol)
    requires Edge(defs, s, t)
    ensures s in Table(defs)
  {
    assert s == Config(s.id, defs[s.id].ty);
  }

  /** If every symbol with an edge is numbered, there is no cycle. */
  lemma OrderedAcyclic(defs: seq<SymbolDef>, done: set<Symbol>, finish: map<Symbol, nat>, clock: nat)
    requires Ordered(defs, done, finish, clock)
    requires Table(defs) <= done
    ensures !HasCycle(defs)
  {
    if HasCycle(defs) {
      var p: seq<Symbol> :| |p| >= 2 && IsPath(defs, p) && p[0] == p[|p| - 1];
      EdgeFromTable(defs, p[0], p[1]);
      PathDescends(defs, done, finish, clock, p);
    }
  }

  /** Everything a property leads to is finished. */
  ghost predicate Explored(done: set<Symbol>, d: SymbolDef, p: Property) {
    forall t | PropertyFollowed(d, p, t) :: t in done
  }

  /** The selects and the first `n` properties are explored. */
  ghost predicate ExploredBefore(done: set<Symbol>, d: SymbolDef, n: nat) {
    && (forall t | Mentions(d.revDep, t) :: t in done)
    && (forall j | 0 <= j < n <= |d.props| :: Explored(done, d, d.props[j]))
  }

  lemma ExploredNext(done: set<Symbol>, done': set<Symbol>, d: SymbolDef, n: nat)
    requires n < |d.props| && done <= done' && ExploredBefore(done, d, n) && Explored(done', d, d.props[n])
    ensures ExploredBefore(done', d, n + 1)
  {
    forall j | 0 <= j < n ensures Explored(done', d, d.props[j]) {
      assert Explored(done, d, d.props[j]);
    }
  }

  lemma AllExplored(done: set<Symbol>, defs: seq<SymbolDef>, s: Symbol)
    requires s.Config? && s.id < |defs| && ExploredBefore(done, defs[s.id], |defs[s.id].props|)
    ensures forall t | Edge(defs, s, t) :: t in done
  {}

  class Checker {
    const defs: seq<SymbolDef>
    ghost const universe: set<Symbol>
    var check: set<Symbol>
    var checked: set<Symbol>
    var warnings: nat
    ghost var finish: map<Symbol, nat>
    ghost var clock: nat

    ghost predicate Shape()
      reads this
    {
      && Closed(defs, universe)
      && check <= checked <= universe
      && (warnings == 0 ==> Ordered(defs, checked - check, finish, clock))
      && (warnings > 0 ==> HasCycle(defs))
    }

    /** The symbols being checked are the ones on the path that led here. */
    ghost predicate Stacked(stack: seq<Symbol>)
      reads this
    {
      IsPath(defs, stack) && forall s :: s in check <==> s in stack
    }

    constructor (defs: seq<SymbolDef>, ghost universe: set<Symbol>)
      requires Closed(defs, universe)
      ensures this.defs == defs && this.universe == universe
      ensures Shape() && Stacked([]) && warnings == 0 && checked == {}
    {
      this.defs, this.universe := defs, universe;
      check, checked, warnings := {}, {}, 0;
      finish, clock := map[], 0;
    }

    /** What one search leaves behind. */
    twostate predicate Advances()
      reads this
    {
      && check == old(check) && old(checked) <= checked && old(warnings) <= warnings
    }

    /** `sym_check_expr_deps`, on an expression of the definition of the symbol on top of the stack. */
    method CheckExpr(e: Expr, ghost stack: seq<Symbol>) returns (r: Option<Symbol>)
      requires Shape() && Stacked(stack) && stack != []
      requires forall t | ContainsSymbol(e, t) :: Edge(defs, stack[|stack| - 1], t) && t in universe
      modifies this
      ensures Shape() && Advances()
      ensures r.Some? ==> warnings > 0
      ensures warnings == 0 ==> forall t | ContainsSymbol(e, t) :: t in checked - check
      decreases universe - checked, 1, e
    {
      match e
      case Bin(_, left, right) =>
        assert forall t :: ContainsSymbol(e, t) <==> ContainsSymbol(left, t) || ContainsSymbol(right, t);
        r := CheckExpr(left, stack);
        if r.None? {
          r := CheckExpr(right, stack);
        }
      case Not(a) =>
        assert forall t :: ContainsSymbol(e, t) <==> ContainsSymbol(a, t);
        r := CheckExpr(a, stack);
      case Cmp(_, s, t) =>
        assert ContainsSymbol(e, s) && ContainsSymbol(e, t);
        r := CheckDeps(s, stack);
        if r.None? {
          r := CheckDeps(t, stack);
        }
      case Sym(s) =>
        assert ContainsSymbol(e, s);
        r := CheckDeps(s, stack);
    }

    /** `sym_check_deps`. */
    method CheckDeps(s: Symbol, ghost stack: seq<Symbol>) returns (r: Option<Symbol>)
      requires Shape() && Stacked(stack) && s in universe
      requires stack != [] ==> Edge(defs, stack[|stack| - 1], s)
      modifies this
      ensures Shape() && Advances()
      ensures r.Some? ==> warnings > 0
      ensures warnings == 0 ==> s in checked - check
      decreases universe - checked, 0, 1
    {
      if s in check {
        Warn(s, stack);
        return Some(s);
      }
      if s in checked {
        return None;
      }
      r := Explore(s, stack);
      if r == Some(s) {
        r := None;
      }
    }

    /** A symbol on the stack was met again. */
    method Warn(s: Symbol, ghost stack: seq<Symbol>)
      requires Shape() && Stacked(stack) && s in check && stack != [] && Edge(defs, stack[|stack| - 1], s)
      modifies this`warnings
      ensures Shape() && warnings > 0 && warnings > old(warnings)
    {
      CycleOnStack(defs, stack, s);
      warnings := warnings + 1;
    }

    /** The search below a symbol met for the first time. */
    method Explore(s: Symbol, ghost stack: seq<Symbol>) returns (r: Option<Symbol>)
      requires Shape() && Stacked(stack) && s in universe && s !in checked
      requires stack != [] ==> Edge(defs, stack[|stack| - 1], s)
      modifies this
      ensures Shape() && Advances()
      ensures r.Some? ==> warnings > 0
      ensures warnings == 0 ==> s in checked - check
      decreases universe - checked, 0, 0
    {
      Mark(s, stack);
      r := CheckProps(s, stack + [s]);
      Unmark(s);
      assert check == old(check);
    }

    /** Sets CHECK and CHECKED. */
    method Mark(s: Symbol, ghost stack: seq<Symbol>)
      requires Shape() && Stacked(stack) && s in universe && s !in checked
      requires stack != [] ==> Edge(defs, stack[|stack| - 1], s)
      modifies this`check, this`checked
      ensures Shape() && Stacked(stack + [s]) && check == old(check) + {s} && checked == old(checked) + {s}
      ensures universe - checked < old(universe - checked)
    {
      PathPush(defs, stack, s);
      ghost var done := checked - check;
      check, checked := check + {s}, checked + {s};
      assert checked - check == done;
    }

    /** Clears CHECK: the symbol is finished. */
    method Unmark(s: Symbol)
      requires Shape() && s in check
      requires warnings == 0 ==> forall t | Edge(defs, s, t) :: t in checked - check
      modifies this`check, this`finish, this`clock
      ensures Shape() && check == old(check) - {s}
    {
      ghost var done := checked - check;
      if warnings == 0 { FinishNext(defs, done, finish, clock, s); }
      check := check - {s};
      assert checked - check == done + {s};
      finish, clock := finish[s := clock], clock + 1;
    }

    /** The body of `sym_check_deps`: selects first, then the properties in order, until something is found. */
    method CheckProps(s: Symbol, ghost stack: seq<Symbol>) returns (r: Option<Symbol>)
      requires Shape() && Stacked(stack) && stack != [] && s == stack[|stack| - 1] && s in universe
      modifies this
      ensures Shape() && Advances()
      ensures r.Some? ==> warnings > 0
      ensures warnings == 0 ==> forall t | Edge(defs, s, t) :: t in checked - check
      decreases universe - checked, 4
    {
      r := None;
      if !s.Config? {
        return;
      }
      var d := defs[s.id];
      r := CheckOpt(d.revDep, s, stack);
      var n := 0;
      while n < |d.props| && r.None?
        invariant n <= |d.props| && Shape() && Advances()
        invariant r.Some? ==> warnings > 0
        invariant warnings == 0 ==> ExploredBefore(checked - check, d, n)
      {
        ghost var done := checked - check;
        r := CheckProperty(d.props[n], s, stack);
        if warnings == 0 { ExploredNext(done, checked - check, d, n); }
        n := n + 1;
      }
      if warnings == 0 { AllExplored(checked - check, defs, s); }
    }

    method CheckProperty(p: Property, s: Symbol, ghost stack: seq<Symbol>) returns (r: Option<Symbol>)
      requires Shape() && Stacked(stack) && stack != [] && s == stack[|stack| - 1] && s in universe && s.Config?
      requires p in defs[s.id].props
      modifies this
      ensures Shape() && Advances()
      ensures r.Some? ==> warnings > 0
      ensures warnings == 0 ==> Explored(checked - check, defs[s.id], p)
      decreases universe - checked, 3
    {
      var d := defs[s.id];
      r := None;
      assert forall t :: PropertyFollowed(d, p, t) ==> Edge(defs, s, t);
      if p.ty in {ChoiceProp, SelectProp, DeselectProp} {
        return;
      }
      assert forall t :: Mentions(p.visible, t) ==> PropertyFollowed(d, p, t);
      r := CheckOpt(p.visible, s, stack);
      if r.Some? || p.ty != DefaultProp || d.choice {
        return;
      }
      assert forall t :: Mentions(p.expr, t) ==> PropertyFollowed(d, p, t);
      r := CheckOpt(p.expr, s, stack);
    }

    /** The loop over all symbols. */
    method CheckAll()
      requires Shape() && check == {} && Table(defs) <= universe
      modifies this
      ensures Shape() && check == {}
      ensures warnings == 0 ==> Table(defs) <= checked && Ordered(defs, checked, finish, clock)
    {
      for i := 0 to |defs|
        invariant Shape() && check == {} && Stacked([])
        invariant warnings == 0 ==> forall j | 0 <= j < i :: Config(j, defs[j].ty) in checked
      {
        assert Config(i, defs[i].ty) in Table(defs);
        var r := CheckDeps(Config(i, defs[i].ty), []);
      }
      assert checked - check == checked;
    }

    method CheckOpt(e: Option<Expr>, ghost s: Symbol, ghost stack: seq<Symbol>) returns (r: Option<Symbol>)
      requires Shape() && Stacked(stack) && stack != [] && s == stack[|stack| - 1] && s in universe
      requires forall t | Mentions(e, t) :: Edge(defs, s, t)
      modifies this
      ensures Shape() && Advances()
      ensures r.Some? ==> warnings > 0
      ensures warnings == 0 ==> forall t | Mentions(e, t) :: t in checked - check
      decreases universe - checked, 2
    {
      r := None;
      if e.Some? {
        assert forall t :: Mentions(e, t) <==> ContainsSymbol(e.value, t);
        r := CheckExpr(e.value, stack);
      }
    }
  }

  /** The sweep over all symbols: a warning is raised if and only if the dependencies have a cycle.
      Without a warning, the finishing numbers order all symbols. */
  method Sweep(defs: seq<SymbolDef>) returns (warnings: nat, ghost finish: map<Symbol, nat>, ghost clock: nat)
    requires WellFormed(defs)
    ensures warnings > 0 <==> HasCycle(defs)
    ensures warnings == 0 ==> exists done :: Table(defs) <= done && Ordered(defs, done, finish, clock)
  {
    UniverseClosed(defs);
    var c := new Checker(defs, Universe(defs));
    c.CheckAll();
    warnings, finish, clock := c.warnings, c.finish, c.clock;
    if warnings == 0 {
      OrderedAcyclic(defs, c.checked, finish, clock);
    }
  }

  /** Meeting a symbol that is on the stack closes a cycle. */
  lemma CycleOnStack(defs: seq<SymbolDef>, stack: seq<Symbol>, s: Symbol)
    requires IsPath(defs, stack) && s in stack && Edge(defs, stack[|stack| - 1], s)
    ensures HasCycle(defs)
  {
    var k :| 0 <= k < |stack| && stack[k] == s;
    PathFrom(defs, stack, k);
    PathPush(defs, stack[k..], s);
    var p := stack[k..] + [s];
    assert IsPath(defs, p) && p[0] == p[|p| - 1];
  }
}
