/** The linked menu tree that `menu_finalize` rearranges in place and `conf_write` walks. */
module MenuLinks {
  import opened Common
  import opened Expressions
  import opened Duplicates
  import opened Transformation
  import opened Comparison
  import opened Menus

  /** The link fields of `struct menu`; an entry is named by its position. */
  datatype Links = Links(next: Option<nat>, list: Option<nat>, parent: Option<nat>)

  type Heap = seq<Links>

  /** From pointer `a` up to pointer `b` the links spell out the forest `f` under the parent `p`. */
  predicate Seg(h: Heap, a: Option<nat>, b: Option<nat>, p: Option<nat>, f: Forest)
    decreases f
  {
    match f
    case Nil => a == b
    case Cons(i, k, r) =>
      && a == Some(i) && i < |h| && h[i].parent == p
      && Seg(h, h[i].list, None, Some(i), k)
      && Seg(h, h[i].next, b, p, r)
  }

  /** Only the links of entries in `ids` differ. */
  predicate Outside(h: Heap, h': Heap, ids: set<nat>) {
    |h'| == |h| && forall x | 0 <= x < |h| && x !in ids :: h'[x] == h[x]
  }

  lemma {:induction false} SegFrame(h: Heap, h': Heap, a: Option<nat>, b: Option<nat>, p: Option<nat>, f: Forest, ids: set<nat>)
    requires Seg(h, a, b, p, f) && Outside(h, h', ids) && ids !! Ids(f)
    ensures Seg(h', a, b, p, f)
    decreases f
  {
    if f.Cons? {
      SegFrame(h, h', h[f.id].list, None, Some(f.id), f.kids, ids);
      SegFrame(h, h', h[f.id].next, b, p, f.rest, ids);
    }
  }

  lemma {:induction false} SegAppend(h: Heap, a: Option<nat>, b: Option<nat>, c: Option<nat>, p: Option<nat>, f: Forest, g: Forest)
    requires Seg(h, a, b, p, f) && Seg(h, b, c, p, g)
    ensures Seg(h, a, c, p, Append(f, g))
    decreases f
  {
    if f.Cons? { SegAppend(h, h[f.id].next, b, c, p, f.rest, g); }
  }

  lemma {:induction false} AppendFacts(f: Forest, g: Forest, k: Forest)
    ensures Ids(Append(f, g)) == Ids(f) + Ids(g)
    ensures Append(Append(f, g), k) == Append(f, Append(g, k))
    ensures Append(f, Nil) == f
    decreases f
  {
    if f.Cons? { AppendFacts(f.rest, g, k); }
  }

  class MenuTree {
    var links: Heap
    var entries: Entries
    /** The entries in the order `menu_finalize` was called on them. */
    ghost var calls: seq<nat>

    /** The first loop: conditions for the entries of the list. */
    method HandDownList(i: nat, ghost k: Forest)
      requires |entries| == |links| && i < |links| && Seg(links, links[i].list, None, Some(i), k)
      modifies this`entries
      ensures entries == HandDown(old(entries), HandedDown(old(entries[i])), k)
    {
      var outer := HandedDown(entries[i]);
      var menu := links[i].list;
      ghost var todo := k;
      while menu.Some?
        invariant |entries| == |links| && Seg(links, menu, None, Some(i), todo)
        invariant HandDown(old(entries), outer, k) == HandDown(entries, outer, todo)
        decreases todo
      {
        var j := menu.value;
        var e := Condition(entries[j], outer);
        entries := entries[j := e];
        menu := links[j].next;
        todo := todo.rest;
      }
    }

    /** `menu_finalize`. */
    method Finalize(i: nat, ghost p: Option<nat>, ghost k: Forest, ghost r: Forest)
      requires |entries| == |links| && Seg(links, Some(i), None, p, Cons(i, k, r)) && Proper(Cons(i, k, r))
      modifies this
      ensures var o := Finalized(old(entries), i, k, r);
        && entries == o.entries
        && Seg(links, Some(i), None, p, Cons(i, o.kids, o.rest))
        && calls == old(calls) + ([i] + Preorder(o.kids))
      ensures Outside(old(links), links, Ids(Cons(i, k, r)))
      decreases |Preorder(k)| + |Preorder(r)|, 2
    {
      calls := calls + [i];
      ghost var o := Outcome(entries, Nil, r);
      if links[i].list.Some? {
        HandDownList(i, k);
        o := FinalizedList(entries, k).(rest := r);
        FinalizeList(i, k, r);
        SegFrame(old(links), links, links[i].next, None, p, r, Ids(k));
        assert links[i] == old(links[i]);
      } else if entries[i].sym.Some? {
        o := Swallowed(entries, entries[i], r);
        SwallowNext(i, p, r);
      }
      assert Seg(links, Some(i), None, p, Cons(i, o.kids, o.rest));
      StillProper(i, k, r, o.kids, o.rest);
      Regroup(old(calls), [i], Preorder(o.kids));
      HoistLists(i, o.kids, o.rest, p);
    }

    method FinalizeList(i: nat, ghost k: Forest, ghost r: Forest)
      requires |entries| == |links| && i < |links| && i !in Ids(k)
      requires Seg(links, links[i].list, None, Some(i), k) && Proper(k)
      modifies this
      ensures var o := FinalizedList(old(entries), k);
        && entries == o.entries
        && Outside(old(links), links, Ids(k))
        && Seg(links, links[i].list, None, Some(i), o.kids)
        && calls == old(calls) + Preorder(k)
      decreases |Preorder(k)| + |Preorder(r)|, 0
    {
      var menu := links[i].list;
      ghost var s, done, todo := menu, Nil, k;
      while menu.Some?
        invariant |entries| == |links| && Outside(old(links), links, Ids(k))
        invariant Between(links, s, menu, Some(i), Some(i), done, todo, k)
        invariant FinalizedList(old(entries), k) == Joined(done, FinalizedList(entries, todo))
        invariant calls == old(calls) + Preorder(done)
        decreases |Preorder(todo)|
      {
        var j := menu.value;
        BetweenTodo(links, s, menu, Some(i), Some(i), done, todo, k);
        ghost var before, a := links, Finalized(entries, j, todo.kids, todo.rest);
        ListStep(entries, done, todo);
        Finalize(j, Some(i), todo.kids, todo.rest);
        BetweenStep(before, links, s, Some(i), Some(i), done, todo, k, a.kids, a.rest);
        Regroup(old(calls), Preorder(done), [j] + Preorder(a.kids));
        menu := links[j].next;
        done, todo := Append(done, Cons(j, a.kids, Nil)), a.rest;
      }
      BetweenTodo(links, s, menu, Some(i), Some(i), done, todo, k);
    }

    /** The following entries that depend on the symbol become its list. */
    method SwallowNext(i: nat, ghost p: Option<nat>, ghost r: Forest)
      requires |entries| == |links| && Seg(links, Some(i), None, p, Cons(i, Nil, r)) && Proper(Cons(i, Nil, r))
      modifies this
      ensures var o := Swallowed(old(entries), old(entries[i]), r);
        && entries == o.entries
        && Seg(links, Some(i), None, p, Cons(i, o.kids, o.rest))
        && calls == old(calls) + Preorder(o.kids)
      ensures Outside(old(links), links, Ids(Cons(i, Nil, r)))
      decreases |Preorder(r)|, 1
    {
      ghost var o := Swallowed(entries, entries[i], r);
      var last, menu := FinalizeFollowing(i, p, r);
      BetweenTodo(links, links[i].next, menu, Some(i), p, o.kids, o.rest, r);
      if o.kids != Nil { LastInIds(o.kids); }
      assert links[i] == old(links[i]);
      if last.Some? {
        TakeList(i, last.value, menu, p, o.kids, o.rest);
      }
    }

    /** The chain from the entry after `i` up to `last` becomes the list of `i`. */
    method TakeList(i: nat, last: nat, ghost menu: Option<nat>, ghost p: Option<nat>, ghost taken: Forest, ghost rest: Forest)
      requires i < |links| && links[i].parent == p && i !in Ids(taken) && i !in Ids(rest) && Ids(taken) !! Ids(rest)
      requires Proper(taken) && taken != Nil && LastOf(taken) == Some(last)
      requires Seg(links, links[i].next, menu, Some(i), taken) && Seg(links, menu, None, p, rest)
      modifies this`links
      ensures Seg(links, Some(i), None, p, Cons(i, taken, rest))
      ensures Outside(old(links), links, {i} + Ids(taken))
    {
      LastInHeap(links, links[i].next, menu, Some(i), taken);
      LastInIds(taken);
      ghost var before := links;
      links := links[i := links[i].(list := links[i].next)];
      links := links[i := links[i].(next := links[last].next)];
      links := links[last := links[last].(next := None)];
      CutOff(before, links, i, last, taken, rest, menu, p);
    }

    /** The loop over the following entries; `last` is the last one taken, `menu` the first one left. */
    method FinalizeFollowing(i: nat, ghost p: Option<nat>, ghost r: Forest) returns (last: Option<nat>, menu: Option<nat>)
      requires |entries| == |links| && i < |links| && i !in Ids(r) && Seg(links, links[i].next, None, p, r) && Proper(r)
      modifies this
      ensures Outside(old(links), links, Ids(r))
      ensures var o := Swallowed(old(entries), old(entries[i]), r);
        && entries == o.entries
        && Between(links, links[i].next, menu, Some(i), p, o.kids, o.rest, r)
        && last == LastOf(o.kids)
        && calls == old(calls) + Preorder(o.kids)
      decreases |Preorder(r)|, 0
    {
      var e := entries[i];
      menu, last := links[i].next, None;
      ghost var s, taken, todo := menu, Nil, r;
      while menu.Some? && Nests(e, entries[menu.value])
        invariant |entries| == |links| && Outside(old(links), links, Ids(r))
        invariant Between(links, s, menu, Some(i), p, taken, todo, r)
        invariant last == LastOf(taken) && calls == old(calls) + Preorder(taken)
        invariant Swallowed(old(entries), e, r) == Joined(taken, Swallowed(entries, e, todo))
        decreases |Preorder(todo)|
      {
        var j := menu.value;
        BetweenTodo(links, s, menu, Some(i), p, taken, todo, r);
        ghost var before, a := links, Finalized(entries, j, todo.kids, todo.rest);
        SwallowStep(entries, e, taken, todo);
        FinalizeBelow(j, p, i, todo.kids, todo.rest);
        BetweenStep(before, links, s, Some(i), p, taken, todo, r, a.kids, a.rest);
        LastAppend(taken, j, a.kids);
        Regroup(old(calls), Preorder(taken), [j] + Preorder(a.kids));
        last, menu := Some(j), links[j].next;
        taken, todo := Append(taken, Cons(j, a.kids, Nil)), a.rest;
      }
      BetweenTodo(links, s, menu, Some(i), p, taken, todo, r);
      AppendFacts(taken, Nil, Nil);
    }

    /** An entry is finalised and put under the parent `i`. */
    method FinalizeBelow(j: nat, ghost p: Option<nat>, i: nat, ghost k: Forest, ghost r: Forest)
      requires |entries| == |links| && Seg(links, Some(j), None, p, Cons(j, k, r)) && Proper(Cons(j, k, r))
      modifies this
      ensures var o := Finalized(old(entries), j, k, r);
        && entries == o.entries
        && calls == old(calls) + ([j] + Preorder(o.kids))
        && Outside(old(links), links, Ids(Cons(j, k, r))) && links[j].parent == Some(i)
        && Seg(links, links[j].list, None, Some(j), o.kids)
        && Seg(links, links[j].next, None, p, o.rest)
      decreases |Preorder(k)| + |Preorder(r)|, 3
    {
      ghost var o := Finalized(entries, j, k, r);
      Finalize(j, p, k, r);
      ghost var before := links;
      links := links[j := links[j].(parent := Some(i))];
      StillProper(j, k, r, o.kids, o.rest);
      Reparented(before, links, j, o.kids, o.rest, p, Some(i));
    }

    /** The last loop: the lists of hidden entries move up. */
    method HoistLists(i: nat, ghost k: Forest, ghost r: Forest, ghost p: Option<nat>)
      requires |entries| == |links| && Seg(links, Some(i), None, p, Cons(i, k, r)) && Proper(Cons(i, k, r))
      modifies this`links
      ensures Seg(links, Some(i), None, p, Cons(i, Hoist(entries, k), r))
      ensures Outside(old(links), links, Ids(k))
    {
      var menu := links[i].list;
      ghost var s, done, todo := menu, Nil, k;
      while menu.Some?
        invariant Outside(old(links), links, Ids(k))
        invariant Between(links, s, menu, Some(i), Some(i), done, todo, k)
        invariant Hoist(entries, k) == Append(done, Hoist(entries, todo))
        decreases |Preorder(todo)|
      {
        var j := menu.value;
        BetweenTodo(links, s, menu, Some(i), Some(i), done, todo, k);
        ghost var before, kids, rest := links, HoistedKids(entries, todo), HoistedRest(entries, todo);
        HoistOne(i, j, todo);
        BetweenStep(before, links, s, Some(i), Some(i), done, todo, k, kids, rest);
        HoistStep(entries, done, todo);
        menu := links[j].next;
        done, todo := Append(done, Cons(j, kids, Nil)), rest;
      }
      BetweenTodo(links, s, menu, Some(i), Some(i), done, todo, k);
      SegFrame(old(links), links, links[i].next, None, p, r, Ids(k));
    }

    /** The list of a hidden entry moves up; any other entry stays as it is. */
    method HoistOne(i: nat, j: nat, ghost f: Forest)
      requires f.Cons? && j == f.id && |entries| == |links| && Seg(links, Some(f.id), None, Some(i), f) && Proper(f)
      modifies this`links
      ensures Seg(links, Some(f.id), None, Some(i), Cons(f.id, HoistedKids(entries, f), HoistedRest(entries, f)))
      ensures Outside(old(links), links, Ids(f))
    {
      if links[j].list.Some? && Hidden(entries[j]) {
        Splice(j, i, f.kids, f.rest);
      }
    }

    /** The list of `j` is spliced in between `j` and the entry after it. */
    method Splice(j: nat, i: nat, ghost k: Forest, ghost r: Forest)
      requires Seg(links, Some(j), None, Some(i), Cons(j, k, r)) && Proper(Cons(j, k, r)) && k != Nil
      modifies this`links
      ensures Seg(links, Some(j), None, Some(i), Cons(j, Nil, Append(k, r)))
      ensures Outside(old(links), links, {j} + Ids(k))
    {
      var last := MoveList(j, i, k);
      ghost var before := links;
      SegFrame(old(links), links, links[j].next, None, Some(i), r, Ids(k));
      LastInIds(k);
      links := links[last := links[last].(next := links[j].next)];
      links := links[j := links[j].(next := links[j].list)];
      links := links[j := links[j].(list := None)];
      SpliceDone(before, links, j, i, last, k, r);
    }

    /** Every entry of the list of `j` gets the parent `i`; the last one is found on the way. */
    method MoveList(j: nat, i: nat, ghost k: Forest) returns (last: nat)
      requires j < |links| && j !in Ids(k) && Proper(k) && k != Nil
      requires Seg(links, links[j].list, None, Some(j), k)
      modifies this`links
      ensures Outside(old(links), links, Ids(k)) && last < |links| && LastOf(k) == Some(last)
      ensures Seg(links, links[j].list, None, Some(i), k)
    {
      last := links[j].list.value;
      ghost var s, done, todo := links[j].list, Nil, k;
      while true
        invariant Outside(old(links), links, Ids(k)) && todo.Cons?
        invariant Between(links, s, Some(last), Some(i), Some(j), done, todo, k) && Append(done, todo) == k
        decreases |Preorder(todo)|
      {
        ghost var before, node := links, Cons(last, todo.kids, Nil);
        BetweenTodo(before, s, Some(last), Some(i), Some(j), done, todo, k);
        links := links[last := links[last].(parent := Some(i))];
        Reparented(before, links, last, todo.kids, todo.rest, Some(j), Some(i));
        BetweenStep(before, links, s, Some(i), Some(j), done, todo, k, todo.kids, todo.rest);
        AppendFacts(done, node, todo.rest);
        LastAppend(done, last, todo.kids);
        done, todo := Append(done, node), todo.rest;
        if links[last].next.None? {
          AppendFacts(done, Nil, Nil);
          break;
        }
        last := links[last].next.value;
      }
    }

    /** After the whole tree is finalised the writer meets every entry once, in declaration order; each entry
        was finalised once, in that order too. */
    method FinalizeAndWalk(root: nat, ghost k: Forest) returns (visited: seq<nat>)
      requires |entries| == |links| && calls == []
      requires Seg(links, Some(root), None, None, Cons(root, k, Nil)) && Proper(Cons(root, k, Nil))
      modifies this
      ensures visited == Preorder(k)
      ensures calls == [root] + Preorder(k) && Distinct(calls)
      ensures entries == Finalized(old(entries), root, k, Nil).entries
    {
      ghost var o := Finalized(entries, root, k, Nil);
      FinalizedRoot(entries, root, k);
      ProperIffDistinct(Cons(root, k, Nil));
      Finalize(root, None, k, Nil);
      assert Preorder(Cons(root, k, Nil)) == [root] + Preorder(k) by { assert Preorder(k) + [] == Preorder(k); }
      visited := Walk(root, o.kids);
    }

    /** `conf_write`: the entries below `root` in the order their lines are written. */
    method Walk(root: nat, ghost k: Forest) returns (visited: seq<nat>)
      requires root < |links| && links[root].parent == None && links[root].next == None
      requires Seg(links, links[root].list, None, Some(root), k)
      ensures visited == Preorder(k)
    {
      visited := [];
      var menu := links[root].list;
      ghost var p, here, ctx := Some(root), k, Up(root, Nil, AtTop);
      while menu.Some?
        invariant Seg(links, menu, None, p, here) && Surrounds(links, p, ctx)
        invariant Preorder(k) == visited + (Preorder(here) + Remaining(ctx))
        invariant menu.None? ==> Remaining(ctx) == []
        decreases |Preorder(here) + Remaining(ctx)|
      {
        var j := menu.value;
        VisitNext(visited, here, Remaining(ctx));
        visited := visited + [j];
        if links[j].list.Some? {
          p, here, ctx := Some(j), here.kids, Up(j, here.rest, ctx);
          menu := links[j].list;
        } else if links[j].next.Some? {
          here := here.rest;
          menu := links[j].next;
        } else {
          here := Nil;
          menu := links[j].parent;
          while menu.Some? && links[menu.value].next.None?
            invariant menu == p && Surrounds(links, p, ctx)
            invariant Preorder(k) == visited + Remaining(ctx)
            decreases ctx
          {
            p, ctx := links[menu.value].parent, ctx.outer;
            menu := links[menu.value].parent;
          }
          if menu.Some? {
            p, here, ctx := links[menu.value].parent, ctx.rest, ctx.outer;
            menu := links[menu.value].next;
          }
        }
      }
    }
  }

  /** The root menu has nothing after it. */
  lemma {:induction false} FinalizedRoot(c: Entries, i: nat, k: Forest)
    ensures var o := Finalized(c, i, k, Nil); o.rest == Nil && Preorder(o.kids) == Preorder(k)
  {
    var o := Finalized(c, i, k, Nil);
    assert o.rest == Nil;
    assert Preorder(o.kids) + [] == Preorder(o.kids) && Preorder(k) + [] == Preorder(k);
  }

  // ----- lemmas about single updates -----

  /** In the middle of a list: `done` from `s` up to `menu` under `q`, `todo` from there on under `p`,
      together the entries of `k` in the same order. */
  predicate Between(h: Heap, s: Option<nat>, menu: Option<nat>, q: Option<nat>, p: Option<nat>, done: Forest, todo: Forest, k: Forest) {
    && Preorder(Append(done, todo)) == Preorder(k) && Proper(Append(done, todo))
    && Seg(h, s, menu, q, done) && Seg(h, menu, None, p, todo)
  }

  lemma {:induction false} BetweenTodo(h: Heap, s: Option<nat>, menu: Option<nat>, q: Option<nat>, p: Option<nat>, done: Forest, todo: Forest, k: Forest)
    requires Between(h, s, menu, q, p, done, todo, k)
    ensures Proper(todo) && Proper(done) && Ids(done) !! Ids(todo) && Ids(done) + Ids(todo) == Ids(k)
    ensures menu.Some? <==> todo.Cons?
    ensures todo == Nil ==> Append(done, todo) == done
  {
    ProperAppend(done, todo);
    AppendFacts(done, todo, Nil);
    SamePreorder(Append(done, todo), k);
  }

  /** One entry further. */
  lemma {:induction false} BetweenStep(h: Heap, h': Heap, s: Option<nat>, q: Option<nat>, p: Option<nat>, done: Forest, todo: Forest, k: Forest, kids: Forest, rest: Forest)
    requires todo.Cons? && Between(h, s, Some(todo.id), q, p, done, todo, k)
    requires Preorder(kids) + Preorder(rest) == Preorder(todo.kids) + Preorder(todo.rest)
    requires Outside(h, h', Ids(todo))
    requires h'[todo.id].parent == q && Seg(h', h'[todo.id].list, None, Some(todo.id), kids)
    requires Seg(h', h'[todo.id].next, None, p, rest)
    ensures Between(h', s, h'[todo.id].next, q, p, Append(done, Cons(todo.id, kids, Nil)), rest, k)
    ensures |Preorder(rest)| < |Preorder(todo)|
    ensures Preorder(Append(done, Cons(todo.id, kids, Nil))) == Preorder(done) + ([todo.id] + Preorder(kids))
  {
    ApartFacts(done, todo, k, Outcome([], kids, rest));
    Advance(h, h', s, todo.id, q, done, todo, kids);
  }

  lemma {:induction false} StillProper(i: nat, k: Forest, r: Forest, k': Forest, r': Forest)
    requires Preorder(k') + Preorder(r') == Preorder(k) + Preorder(r) && Proper(Cons(i, k, r))
    ensures Proper(Cons(i, k', r')) && Ids(Cons(i, k', r')) == Ids(Cons(i, k, r))
  {
    SplitSmaller(i, k, r, k', r');
    SamePreorder(Cons(i, k, r), Cons(i, k', r'));
  }

  /** The first entry's list, and what follows it, after the list of a hidden entry was spliced in. */
  ghost function HoistedKids(c: Entries, f: Forest): Forest
    requires f.Cons?
  {
    if f.kids != Nil && Hidden(Get(c, f.id)) then Nil else f.kids
  }

  ghost function HoistedRest(c: Entries, f: Forest): (r: Forest)
    requires f.Cons?
    ensures Preorder(HoistedKids(c, f)) + Preorder(r) == Preorder(f.kids) + Preorder(f.rest)
  {
    if f.kids != Nil && Hidden(Get(c, f.id)) then Append(f.kids, f.rest) else f.rest
  }

  lemma {:induction false} HoistStep(c: Entries, done: Forest, todo: Forest)
    requires todo.Cons?
    ensures Append(done, Hoist(c, todo))
         == Append(Append(done, Cons(todo.id, HoistedKids(c, todo), Nil)), Hoist(c, HoistedRest(c, todo)))
  {
    AppendFacts(done, Cons(todo.id, HoistedKids(c, todo), Nil), Hoist(c, HoistedRest(c, todo)));
  }

  /** A finished part in front of an outcome. */
  function Joined(done: Forest, o: Outcome): Outcome { o.(kids := Append(done, o.kids)) }

  lemma {:induction false} ListStep(c: Entries, done: Forest, todo: Forest)
    requires todo.Cons?
    ensures var a := Finalized(c, todo.id, todo.kids, todo.rest);
      Joined(done, FinalizedList(c, todo)) == Joined(Append(done, Cons(todo.id, a.kids, Nil)), FinalizedList(a.entries, a.rest))
  {
    var a := Finalized(c, todo.id, todo.kids, todo.rest);
    AppendFacts(done, Cons(todo.id, a.kids, Nil), FinalizedList(a.entries, a.rest).kids);
  }

  lemma {:induction false} SwallowStep(c: Entries, e: Entry, done: Forest, todo: Forest)
    requires todo.Cons? && Nests(e, Get(c, todo.id))
    ensures var a := Finalized(c, todo.id, todo.kids, todo.rest);
      Joined(done, Swallowed(c, e, todo)) == Joined(Append(done, Cons(todo.id, a.kids, Nil)), Swallowed(a.entries, e, a.rest))
  {
    var a := Finalized(c, todo.id, todo.kids, todo.rest);
    AppendFacts(done, Cons(todo.id, a.kids, Nil), Swallowed(a.entries, e, a.rest).kids);
  }

  /** The finished part grows by the entry that was just dealt with. */
  lemma {:induction false} Advance(h: Heap, h': Heap, s: Option<nat>, j: nat, q: Option<nat>, done: Forest, todo: Forest, kids: Forest)
    requires Seg(h, s, Some(j), q, done) && Outside(h, h', Ids(todo)) && Ids(done) !! Ids(todo)
    requires j < |h'| && h'[j].parent == q && Seg(h', h'[j].list, None, Some(j), kids)
    ensures Seg(h', s, h'[j].next, q, Append(done, Cons(j, kids, Nil)))
  {
    SegFrame(h, h', s, Some(j), q, done, Ids(todo));
    SegAppend(h', s, Some(j), h'[j].next, q, done, Cons(j, kids, Nil));
  }

  /** The last entry of a list. */
  function LastOf(f: Forest): Option<nat> {
    match f case Nil => None case Cons(i, _, r) => if r == Nil then Some(i) else LastOf(r)
  }

  lemma {:induction false} LastInIds(f: Forest)
    requires f != Nil
    ensures LastOf(f).Some? && LastOf(f).value in Ids(f)
  {
    if f.rest != Nil { LastInIds(f.rest); }
  }

  lemma {:induction false} LastInHeap(h: Heap, a: Option<nat>, b: Option<nat>, p: Option<nat>, f: Forest)
    requires Seg(h, a, b, p, f) && f != Nil
    ensures LastOf(f).Some? && LastOf(f).value < |h|
    decreases f
  {
    if f.rest != Nil { LastInHeap(h, h[f.id].next, b, p, f.rest); }
  }

  lemma {:induction false} LastAppend(f: Forest, j: nat, k: Forest)
    ensures LastOf(Append(f, Cons(j, k, Nil))) == Some(j)
    decreases f
  {
    if f.Cons? { LastAppend(f.rest, j, k); }
  }

  /** A list and its first entry under a new parent. */
  lemma {:induction false} Reparented(h: Heap, h': Heap, j: nat, k: Forest, r: Forest, p: Option<nat>, q: Option<nat>)
    requires Seg(h, Some(j), None, p, Cons(j, k, r)) && Proper(Cons(j, k, r))
    requires h' == h[j := h[j].(parent := q)]
    ensures Seg(h', Some(j), h'[j].next, q, Cons(j, k, Nil))
    ensures Seg(h', h'[j].next, None, p, r)
  {
    SegFrame(h, h', h[j].list, None, Some(j), k, {j});
    SegFrame(h, h', h[j].next, None, p, r, {j});
  }

  /** Redirecting the last entry of a list redirects the list. */
  lemma {:induction false} Retarget(h: Heap, h': Heap, a: Option<nat>, b: Option<nat>, c: Option<nat>, p: Option<nat>, f: Forest, last: nat)
    requires Seg(h, a, b, p, f) && Proper(f) && LastOf(f) == Some(last)
    requires |h'| == |h| && last < |h| && h'[last] == h[last].(next := c)
    requires forall x | x in Ids(f) && x < |h| && x != last :: h'[x] == h[x]
    ensures last in Ids(f) && h[last].next == b
    ensures Seg(h', a, c, p, f)
    decreases f
  {
    if f.rest == Nil {
      SegSame(h, h', h[f.id].list, None, Some(f.id), f.kids);
    } else {
      Retarget(h, h', h[f.id].next, b, c, p, f.rest, last);
      SegSame(h, h', h[f.id].list, None, Some(f.id), f.kids);
    }
  }

  lemma {:induction false} SegSame(h: Heap, h': Heap, a: Option<nat>, b: Option<nat>, p: Option<nat>, f: Forest)
    requires Seg(h, a, b, p, f) && |h'| == |h| && forall x | x in Ids(f) && x < |h| :: h'[x] == h[x]
    ensures Seg(h', a, b, p, f)
    decreases f
  {
    if f.Cons? {
      SegSame(h, h', h[f.id].list, None, Some(f.id), f.kids);
      SegSame(h, h', h[f.id].next, b, p, f.rest);
    }
  }

  /** The entries taken become the list of `i`; what follows them follows `i`. */
  lemma {:induction false} CutOff(h: Heap, h': Heap, i: nat, last: nat, taken: Forest, rest: Forest, menu: Option<nat>, p: Option<nat>)
    requires i < |h| && h[i].parent == p && i !in Ids(taken) && i !in Ids(rest) && Ids(taken) !! Ids(rest)
    requires Proper(taken) && LastOf(taken) == Some(last) && last < |h|
    requires Seg(h, h[i].next, menu, Some(i), taken) && Seg(h, menu, None, p, rest)
    requires h' == h[i := Links(h[last].next, h[i].next, p)][last := h[last].(next := None)]
    ensures Seg(h', Some(i), None, p, Cons(i, taken, rest))
  {
    LastInIds(taken);
    Retarget(h, h', h[i].next, menu, None, Some(i), taken, last);
    SegSame(h, h', menu, None, p, rest);
  }

  lemma {:induction false} SpliceDone(h: Heap, h': Heap, j: nat, i: nat, last: nat, k: Forest, r: Forest)
    requires j < |h| && h[j].parent == Some(i) && Proper(Cons(j, k, r)) && LastOf(k) == Some(last) && last < |h|
    requires Seg(h, h[j].list, None, Some(i), k) && Seg(h, h[j].next, None, Some(i), r)
    requires h' == h[last := h[last].(next := h[j].next)][j := Links(h[j].list, None, Some(i))]
    ensures Seg(h', Some(j), None, Some(i), Cons(j, Nil, Append(k, r)))
  {
    LastInIds(k);
    Retarget(h, h', h[j].list, None, h[j].next, Some(i), k, last);
    SegSame(h, h', h[j].next, None, Some(i), r);
    SegAppend(h', h[j].list, h[j].next, None, Some(i), k, r);
  }

  // ----- the walk -----

  /** The lists around the current one: the entry they belong to and what follows it. */
  datatype Around = AtTop | Up(id: nat, rest: Forest, outer: Around)

  predicate Surrounds(h: Heap, p: Option<nat>, ctx: Around)
    decreases ctx
  {
    match ctx
    case AtTop => p == None
    case Up(i, rest, outer) =>
      && p == Some(i) && i < |h|
      && Seg(h, h[i].next, None, h[i].parent, rest)
      && Surrounds(h, h[i].parent, outer)
  }

  /** Visiting the first entry leaves its list, then what follows it, then the rest. */
  lemma {:induction false} VisitNext(visited: seq<nat>, f: Forest, rest: seq<nat>)
    requires f.Cons?
    ensures visited + (Preorder(f) + rest) == visited + [f.id] + (Preorder(f.kids) + (Preorder(f.rest) + rest))
    ensures f.kids == Nil ==> visited + (Preorder(f) + rest) == visited + [f.id] + (Preorder(f.rest) + rest)
    ensures f.kids == f.rest == Nil ==> visited + (Preorder(f) + rest) == visited + [f.id] + rest
    ensures |Preorder(f) + rest| == 1 + |Preorder(f.kids)| + |Preorder(f.rest)| + |rest|
  {
    var k, r := Preorder(f.kids), Preorder(f.rest);
    VisitSeq(visited, f.id, k, r, rest);
  }

  lemma VisitSeq<T>(v: seq<T>, x: T, k: seq<T>, r: seq<T>, rest: seq<T>)
    ensures v + ([x] + (k + r) + rest) == v + [x] + (k + (r + rest))
    ensures k == [] ==> k + (r + rest) == r + rest
    ensures r == [] ==> r + rest == rest
  {}

  function Remaining(ctx: Around): seq<nat> {
    match ctx case AtTop => [] case Up(_, rest, outer) => Preorder(rest) + Remaining(outer)
  }

  /** One step along a list: names stay apart and the preorder stays the same. */
  lemma {:induction false} ApartFacts(done: Forest, todo: Forest, k: Forest, a: Outcome)
    requires todo.Cons? && Preorder(Append(done, todo)) == Preorder(k) && Proper(Append(done, todo))
    requires Preorder(a.kids) + Preorder(a.rest) == Preorder(todo.kids) + Preorder(todo.rest)
    ensures Proper(todo) && Ids(done) !! Ids(todo) && Ids(todo) <= Ids(k)
    ensures var next := Append(Append(done, Cons(todo.id, a.kids, Nil)), a.rest);
      Preorder(next) == Preorder(k) && Proper(next)
    ensures |Preorder(a.rest)| < |Preorder(todo)|
    ensures Preorder(Append(done, Cons(todo.id, a.kids, Nil))) == Preorder(done) + ([todo.id] + Preorder(a.kids))
  {
    var node := Cons(todo.id, a.kids, Nil);
    AppendFacts(done, node, a.rest);
    AppendFacts(done, todo, Nil);
    SplitSmaller(todo.id, todo.kids, todo.rest, a.kids, a.rest);
    assert Append(node, a.rest) == Cons(todo.id, a.kids, a.rest);
    SamePreorder(Append(done, todo), k);
    SamePreorder(Append(done, todo), Append(done, Cons(todo.id, a.kids, a.rest)));
    ProperAppend(done, todo);
  }

  lemma {:induction false} ProperAppend(f: Forest, g: Forest)
    ensures Proper(Append(f, g)) <==> Proper(f) && Proper(g) && Ids(f) !! Ids(g)
    decreases f
  {
    if f.Cons? {
      ProperAppend(f.rest, g);
      AppendFacts(f.rest, g, Nil);
    }
  }

  /** The conditions of one entry: its own first, then those of its properties. */
  method Condition(e: Entry, outer: Option<Expr>) returns (r: Entry)
    ensures r == Conditioned(e, outer)
  {
    var dep := Place(outer, e.dep);
    var prompt := e.prompt;
    if prompt.Some? {
      var v := Place(dep, prompt.value.visible);
      prompt := Some(prompt.value.(visible := if TwoValued(e) && v.Some? then Some(TransBool(v.value)) else v));
    }
    var others: seq<Option<Expr>> := [];
    for n := 0 to |e.others|
      invariant |others| == n
      invariant forall k | 0 <= k < n :: others[k] == PropertyUnder(e, dep, e.others[k])
    {
      var v := Place(dep, e.others[n]);
      others := others + [if TwoValued(e) && v.Some? then Some(TransBool(v.value)) else v];
    }
    r := e.(dep := dep, prompt := prompt, others := others);
    assert r.others == Conditioned(e, outer).others;
  }

  /** Transform, conjoin, and simplify until nothing changes. */
  method Place(outer: Option<Expr>, v: Option<Expr>) returns (r: Option<Expr>)
    ensures r == Under(outer, v)
  {
    r := AndOpt(outer, TransformOpt(v));
    if r.Some? {
      var x := EliminateDups(r.value);
      r := Some(x);
    }
  }
}
