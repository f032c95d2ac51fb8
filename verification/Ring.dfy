/** The cyclic doubly linked list of libnbu, its cursor, its insertion sort, and the session cleaner. */
module LinkedRing {
  import opened Common

  /** `nbu_list_node_t`; a node is named by a number, the root node embedded in the list is number 0. */
  datatype Cell<T> = Cell(prev: Option<nat>, next: Option<nat>, data: Option<T>)

  const ROOT: nat := 0

  type Store<T> = map<nat, Cell<T>>

  function WithNext<T>(m: Store<T>, x: nat, v: Option<nat>): Store<T> {
    if x in m then m[x := m[x].(next := v)] else m
  }

  function WithPrev<T>(m: Store<T>, x: nat, v: Option<nat>): Store<T> {
    if x in m then m[x := m[x].(prev := v)] else m
  }

  /** Position 0 and position |ring| + 1 are the root, the positions between are the nodes in order. */
  function At(ring: seq<nat>, i: nat): nat { if 0 < i <= |ring| then ring[i - 1] else ROOT }

  ghost predicate Nodes<T>(m: Store<T>, ring: seq<nat>) {
    && ROOT !in ring
    && (forall i, j | 0 <= i < j < |ring| :: ring[i] != ring[j])
    && m.Keys == {ROOT} + (set x | x in ring)
    && forall x | x in ring :: m[x].data.Some?
  }

  /** Neighbours in the ring point at each other. */
  ghost predicate Links<T>(m: Store<T>, ring: seq<nat>)
    requires Nodes(m, ring)
  {
    forall i: nat | i <= |ring| :: Joined(m, At(ring, i), At(ring, i + 1))
  }

  ghost predicate Joined<T>(m: Store<T>, x: nat, y: nat) {
    x in m && y in m && m[x].next == Some(y) && m[y].prev == Some(x)
  }

  /** A list never inserted into: the root points nowhere. */
  predicate Fresh<T>(m: Store<T>, ring: seq<nat>) {
    ring == [] && ROOT in m && m[ROOT].next == None && m[ROOT].prev == None
  }

  ghost predicate WellFormed<T>(m: Store<T>, ring: seq<nat>) {
    Nodes(m, ring) && (Fresh(m, ring) || Links(m, ring))
  }

  ghost function Data<T>(m: Store<T>, ring: seq<nat>): (s: seq<T>)
    requires Nodes(m, ring)
    ensures |s| == |ring|
  {
    seq(|ring|, i requires 0 <= i < |ring| => assert ring[i] in ring; m[ring[i]].data.value)
  }

  // ----- linking a node in -----

  function Inserted(ring: seq<nat>, i: nat, x: nat): seq<nat>
    requires i <= |ring|
  {
    ring[..i] + [x] + ring[i..]
  }

  lemma InsertedAt(ring: seq<nat>, i: nat, x: nat, j: nat)
    requires i <= |ring| && j <= |ring| + 2
    ensures At(Inserted(ring, i, x), j) == if j <= i then At(ring, j) else if j == i + 1 then x else At(ring, j - 1)
  {}

  /** The node `x` between positions i and i + 1. */
  function LinkIn<T>(m: Store<T>, ring: seq<nat>, i: nat, x: nat, d: T): Store<T> {
    WithPrev(WithNext(m[x := Cell(Some(At(ring, i)), Some(At(ring, i + 1)), Some(d))], At(ring, i), Some(x)),
             At(ring, i + 1), Some(x))
  }

  lemma AtDistinct(ring: seq<nat>, i: nat, j: nat)
    requires ROOT !in ring && (forall i, j | 0 <= i < j < |ring| :: ring[i] != ring[j])
    requires i < j <= |ring| + 1 && !(i == 0 && j == |ring| + 1)
    ensures At(ring, i) != At(ring, j)
  {}

  lemma InsertedMembers(ring: seq<nat>, i: nat, x: nat)
    requires i <= |ring| && x !in ring && (forall i, j | 0 <= i < j < |ring| :: ring[i] != ring[j])
    ensures forall y :: y in Inserted(ring, i, x) <==> y in ring || y == x
    ensures forall a, b | 0 <= a < b < |ring| + 1 :: Inserted(ring, i, x)[a] != Inserted(ring, i, x)[b]
  {}

  lemma LinkInNodes<T>(m: Store<T>, ring: seq<nat>, i: nat, x: nat, d: T)
    requires Nodes(m, ring) && i <= |ring| && x !in m
    ensures Nodes(LinkIn(m, ring, i, x, d), Inserted(ring, i, x))
  {
    assert x !in ring && x != ROOT;
    InsertedMembers(ring, i, x);
    assert LinkIn(m, ring, i, x, d).Keys == m.Keys + {x};
    forall y | y in Inserted(ring, i, x) ensures LinkIn(m, ring, i, x, d)[y].data.Some? { LinkInCell(m, ring, i, x, d, y); }
  }

  lemma LinkInKeeps<T>(m: Store<T>, ring: seq<nat>, i: nat, x: nat, d: T, y: nat, z: nat)
    requires x !in m && Joined(m, y, z) && y != At(ring, i) && z != At(ring, i + 1)
    ensures Joined(LinkIn(m, ring, i, x, d), y, z)
  {}

  lemma LinkInJoins<T>(m: Store<T>, ring: seq<nat>, i: nat, x: nat, d: T)
    requires x !in m && At(ring, i) in m && At(ring, i + 1) in m
    ensures Joined(LinkIn(m, ring, i, x, d), At(ring, i), x)
    ensures Joined(LinkIn(m, ring, i, x, d), x, At(ring, i + 1))
  {}

  lemma LinkInFar<T>(m: Store<T>, ring: seq<nat>, i: nat, x: nat, d: T, k: nat)
    requires Nodes(m, ring) && Links(m, ring) && i <= |ring| && k <= |ring| && k != i && x !in m
    ensures Joined(LinkIn(m, ring, i, x, d), At(ring, k), At(ring, k + 1))
  {
    assert Joined(m, At(ring, k), At(ring, k + 1));
    if k < i {
      AtDistinct(ring, k, i);
      AtDistinct(ring, k + 1, i + 1);
    } else {
      AtDistinct(ring, i, k);
      AtDistinct(ring, i + 1, k + 1);
    }
    LinkInKeeps(m, ring, i, x, d, At(ring, k), At(ring, k + 1));
  }

  lemma LinkInLinks<T>(m: Store<T>, ring: seq<nat>, i: nat, x: nat, d: T)
    requires Nodes(m, ring) && Links(m, ring) && i <= |ring| && x !in m
    ensures Nodes(LinkIn(m, ring, i, x, d), Inserted(ring, i, x))
    ensures Links(LinkIn(m, ring, i, x, d), Inserted(ring, i, x))
  {
    LinkInNodes(m, ring, i, x, d);
    var ring', m' := Inserted(ring, i, x), LinkIn(m, ring, i, x, d);
    assert Joined(m, At(ring, i), At(ring, i + 1));
    LinkInJoins(m, ring, i, x, d);
    forall j: nat | j <= |ring'|
      ensures Joined(m', At(ring', j), At(ring', j + 1))
    {
      InsertedAt(ring, i, x, j);
      InsertedAt(ring, i, x, j + 1);
      if j < i { LinkInFar(m, ring, i, x, d, j); }
      if j > i + 1 { LinkInFar(m, ring, i, x, d, j - 1); }
    }
  }

  lemma LinkInCell<T>(m: Store<T>, ring: seq<nat>, i: nat, x: nat, d: T, y: nat)
    requires x !in m && (y == x || y in m)
    ensures var m' := LinkIn(m, ring, i, x, d); y in m' && m'[y].data == if y == x then Some(d) else m[y].data
  {}

  lemma LinkInData<T>(m: Store<T>, ring: seq<nat>, i: nat, x: nat, d: T)
    requires Nodes(m, ring) && i <= |ring| && x !in m
    ensures Nodes(LinkIn(m, ring, i, x, d), Inserted(ring, i, x))
    ensures var s := Data(m, ring); Data(LinkIn(m, ring, i, x, d), Inserted(ring, i, x)) == s[..i] + [d] + s[i..]
  {
    LinkInNodes(m, ring, i, x, d);
    var ring', m', s := Inserted(ring, i, x), LinkIn(m, ring, i, x, d), Data(m, ring);
    var t := s[..i] + [d] + s[i..];
    forall j | 0 <= j < |ring'|
      ensures Data(m', ring')[j] == t[j]
    {
      SplicedAt(ring, i, x, j);
      SplicedAt(s, i, d, j);
      LinkInCell(m, ring, i, x, d, ring'[j]);
    }
    assert Data(m', ring') == t;
  }

  lemma SplicedAt<T>(s: seq<T>, i: nat, d: T, j: nat)
    requires i <= |s| && j <= |s|
    ensures (s[..i] + [d] + s[i..])[j] == if j < i then s[j] else if j == i then d else s[j - 1]
  {}

  // ----- unlinking a node -----

  function Removed(ring: seq<nat>, i: nat): seq<nat>
    requires 0 < i <= |ring|
  {
    ring[..i - 1] + ring[i..]
  }

  lemma RemovedAt(ring: seq<nat>, i: nat, j: nat)
    requires 0 < i <= |ring| && j <= |ring|
    ensures At(Removed(ring, i), j) == if j < i then At(ring, j) else At(ring, j + 1)
  {}

  function Unlink<T>(m: Store<T>, ring: seq<nat>, i: nat): Store<T>
    requires 0 < i <= |ring|
  {
    WithNext(WithPrev(m, At(ring, i + 1), Some(At(ring, i - 1))), At(ring, i - 1), Some(At(ring, i + 1))) - {At(ring, i)}
  }

  /** Where a remaining node was. */
  lemma RemovedIndex(ring: seq<nat>, i: nat, j: nat)
    requires 0 < i <= |ring| && j < |ring| - 1
    ensures Removed(ring, i)[j] == ring[if j < i - 1 then j else j + 1]
  {}

  lemma RemovedMembers(ring: seq<nat>, i: nat)
    requires 0 < i <= |ring| && (forall i, j | 0 <= i < j < |ring| :: ring[i] != ring[j])
    ensures forall y :: y in Removed(ring, i) <==> y in ring && y != At(ring, i)
    ensures forall a, b | 0 <= a < b < |Removed(ring, i)| :: Removed(ring, i)[a] != Removed(ring, i)[b]
  {
    var ring', x := Removed(ring, i), At(ring, i);
    forall y | y in ring && y != x ensures y in ring' {
      var k :| 0 <= k < |ring| && ring[k] == y;
      RemovedIndex(ring, i, if k < i - 1 then k else k - 1);
    }
    forall y | y in ring' ensures y in ring && y != x {
      var k :| 0 <= k < |ring'| && ring'[k] == y;
      RemovedIndex(ring, i, k);
    }
    forall a, b | 0 <= a < b < |ring'| ensures ring'[a] != ring'[b] {
      RemovedIndex(ring, i, a);
      RemovedIndex(ring, i, b);
    }
  }

  lemma UnlinkNodes<T>(m: Store<T>, ring: seq<nat>, i: nat)
    requires Nodes(m, ring) && 0 < i <= |ring|
    ensures Nodes(Unlink(m, ring, i), Removed(ring, i))
  {
    RemovedMembers(ring, i);
    assert Unlink(m, ring, i).Keys == m.Keys - {At(ring, i)};
    assert At(ring, i) in ring;
    forall y | y in Removed(ring, i) ensures Unlink(m, ring, i)[y].data.Some? { UnlinkCell(m, ring, i, y); }
  }

  lemma UnlinkCell<T>(m: Store<T>, ring: seq<nat>, i: nat, y: nat)
    requires 0 < i <= |ring| && y in m && y != At(ring, i)
    ensures y in Unlink(m, ring, i) && Unlink(m, ring, i)[y].data == m[y].data
  {}

  lemma UnlinkKeeps<T>(m: Store<T>, ring: seq<nat>, i: nat, x: nat, y: nat)
    requires 0 < i <= |ring| && Joined(m, x, y) && At(ring, i) !in {x, y}
    requires x != At(ring, i - 1) && y != At(ring, i + 1)
    ensures Joined(Unlink(m, ring, i), x, y)
  {}

  lemma UnlinkBridges<T>(m: Store<T>, ring: seq<nat>, i: nat)
    requires Nodes(m, ring) && 0 < i <= |ring| && At(ring, i - 1) in m && At(ring, i + 1) in m
    ensures Joined(Unlink(m, ring, i), At(ring, i - 1), At(ring, i + 1))
  {
    AtDistinct(ring, i - 1, i);
    AtDistinct(ring, i, i + 1);
  }

  lemma UnlinkLinks<T>(m: Store<T>, ring: seq<nat>, i: nat)
    requires Nodes(m, ring) && Links(m, ring) && 0 < i <= |ring|
    ensures Nodes(Unlink(m, ring, i), Removed(ring, i))
    ensures Links(Unlink(m, ring, i), Removed(ring, i))
  {
    UnlinkNodes(m, ring, i);
    var ring', m' := Removed(ring, i), Unlink(m, ring, i);
    forall j: nat | j <= |ring'|
      ensures Joined(m', At(ring', j), At(ring', j + 1))
    {
      RemovedAt(ring, i, j);
      RemovedAt(ring, i, j + 1);
      if j + 1 == i {
        assert Joined(m, At(ring, i - 1), At(ring, i)) && Joined(m, At(ring, i), At(ring, i + 1));
        UnlinkBridges(m, ring, i);
      } else {
        var k := if j < i then j else j + 1;
        assert Joined(m, At(ring, k), At(ring, k + 1));
        if k < i {
          AtDistinct(ring, k, i); AtDistinct(ring, k + 1, i);
          AtDistinct(ring, k, i - 1); AtDistinct(ring, k + 1, i + 1);
        } else {
          AtDistinct(ring, i, k); AtDistinct(ring, i, k + 1);
          AtDistinct(ring, i - 1, k); AtDistinct(ring, i + 1, k + 1);
        }
        UnlinkKeeps(m, ring, i, At(ring, k), At(ring, k + 1));
      }
    }
  }

  lemma UnlinkData<T>(m: Store<T>, ring: seq<nat>, i: nat)
    requires Nodes(m, ring) && 0 < i <= |ring|
    ensures Nodes(Unlink(m, ring, i), Removed(ring, i))
    ensures var s := Data(m, ring); Data(Unlink(m, ring, i), Removed(ring, i)) == s[..i - 1] + s[i..]
  {
    UnlinkNodes(m, ring, i);
    RemovedMembers(ring, i);
    var ring', m', s := Removed(ring, i), Unlink(m, ring, i), Data(m, ring);
    var t := s[..i - 1] + s[i..];
    forall j | 0 <= j < |ring'|
      ensures Data(m', ring')[j] == t[j]
    {
      RemovedIndex(ring, i, j);
      DroppedAt(s, i, j);
      assert ring'[j] in ring';
      UnlinkCell(m, ring, i, ring'[j]);
    }
    assert Data(m', ring') == t;
  }

  lemma DroppedAt<T>(s: seq<T>, i: nat, j: nat)
    requires 0 < i <= |s| && j < |s| - 1
    ensures (s[..i - 1] + s[i..])[j] == if j < i - 1 then s[j] else s[j + 1]
  {}

  lemma Commute<T>(m: Store<T>, x: nat, a: Option<nat>, y: nat, b: Option<nat>)
    ensures WithNext(WithPrev(m, y, b), x, a) == WithPrev(WithNext(m, x, a), y, b)
  {}

  lemma LinkInFresh<T>(m: Store<T>, x: nat, d: T)
    requires Nodes(m, []) && x !in m
    ensures Nodes(LinkIn(m, [], 0, x, d), [x]) && Links(LinkIn(m, [], 0, x, d), [x])
  {
    LinkInNodes(m, [], 0, x, d);
    assert Inserted([], 0, x) == [x];
  }

  /** The root's own pointers tell whether the list was ever inserted into. */
  lemma FreshTest<T>(m: Store<T>, ring: seq<nat>)
    requires WellFormed(m, ring)
    ensures ROOT in m && (Fresh(m, ring) <==> m[ROOT].next.None? && m[ROOT].prev.None?)
    ensures !Fresh(m, ring) ==> m[ROOT].next == Some(At(ring, 1)) && m[ROOT].prev == Some(At(ring, |ring|))
  {
    if !Fresh(m, ring) { assert Joined(m, At(ring, 0), At(ring, 1)) && Joined(m, At(ring, |ring|), At(ring, |ring| + 1)); }
  }

  lemma LinkInWellFormed<T>(m: Store<T>, ring: seq<nat>, i: nat, x: nat, d: T)
    requires WellFormed(m, ring) && i <= |ring| && x !in m
    ensures var m', ring', s := LinkIn(m, ring, i, x, d), Inserted(ring, i, x), Data(m, ring);
      && WellFormed(m', ring') && !Fresh(m', ring')
      && Data(m', ring') == s[..i] + [d] + s[i..]
      && m'.Keys == m.Keys + {x}
  {
    LinkInData(m, ring, i, x, d);
    if Fresh(m, ring) {
      LinkInFresh(m, x, d);
      assert Inserted(ring, i, x) == [x];
    } else {
      LinkInLinks(m, ring, i, x, d);
    }
    FreshTest(LinkIn(m, ring, i, x, d), Inserted(ring, i, x));
    assert |Inserted(ring, i, x)| > 0;
  }

  lemma UnlinkWellFormed<T>(m: Store<T>, ring: seq<nat>, i: nat)
    requires WellFormed(m, ring) && 0 < i <= |ring|
    ensures var m', ring', s, x := Unlink(m, ring, i), Removed(ring, i), Data(m, ring), At(ring, i);
      && x in m && m[x].next == Some(At(ring, i + 1)) && m[x].prev == Some(At(ring, i - 1))
      && WellFormed(m', ring') && !Fresh(m', ring') && m'.Keys <= m.Keys
      && Data(m', ring') == s[..i - 1] + s[i..]
  {
    assert Joined(m, At(ring, i - 1), At(ring, i)) && Joined(m, At(ring, i), At(ring, i + 1));
    UnlinkLinks(m, ring, i);
    UnlinkData(m, ring, i);
    var m', ring' := Unlink(m, ring, i), Removed(ring, i);
    assert Joined(m', At(ring', 0), At(ring', 1));
  }

  function OrRoot(x: Option<nat>): nat { if x.Some? then x.value else ROOT }

  class List<T> {
    var nodes: Store<T>
    var cursor: Option<nat>
    var count: nat
    /** The next node name to allocate. */
    var unused: nat
    ghost var ring: seq<nat>

    ghost predicate Valid()
      reads this
    {
      && WellFormed(nodes, ring)
      && count == |ring|
      && (forall x | x in nodes :: x < unused)
      && (Fresh(nodes, ring) ==> cursor == None)
    }

    ghost function Contents(): seq<T>
      requires Valid()
      reads this
    {
      Data(nodes, ring)
    }

    /** The cursor is at position `c` of the ring; in a list never inserted into it is null. */
    ghost predicate Stands(c: nat)
      reads this
    {
      c <= |ring| + 1 && (!Fresh(nodes, ring) ==> cursor == Some(At(ring, c)))
    }

    /** `nbu_list_new`. */
    constructor ()
      ensures Valid() && Contents() == [] && Stands(1)
    {
      nodes := map[ROOT := Cell(None, None, None)];
      cursor, count, unused, ring := None, 0, 1, [];
    }

    /** `nbu_list_insert`: next to the node `place`, or as the very first node of a list. */
    method Insert(data: T, place: Option<nat>, after: bool, ghost i: nat) returns (ok: bool)
      requires Valid() && i <= |ring|
      requires place.Some? ==> !Fresh(nodes, ring) && place.value == At(ring, if after then i else i + 1)
      modifies this
      ensures Valid() && cursor == old(cursor)
      ensures ok <==> place.Some? || old(Fresh(nodes, ring))
      ensures !ok ==> ring == old(ring) && nodes == old(nodes)
      ensures ok ==> !Fresh(nodes, ring) && ring == Inserted(old(ring), i, old(unused))
      ensures ok ==> Contents() == old(Contents()[..i]) + [data] + old(Contents()[i..])
    {
      FreshTest(nodes, ring);
      ok := true;
      if place.None? && !(nodes[ROOT].next.None? && nodes[ROOT].prev.None?) {
        return false;
      }
      var x := unused;
      LinkInWellFormed(nodes, ring, i, x, data);
      if place.None? {
        nodes := WithNext(nodes[x := Cell(Some(ROOT), Some(ROOT), Some(data))], ROOT, Some(x));
        nodes := WithPrev(nodes, ROOT, Some(x));
      } else {
        InsertBeside(x, data, place.value, after, i);
      }
      count, unused, ring := count + 1, unused + 1, Inserted(ring, i, x);
    }

    method InsertBeside(x: nat, data: T, place: nat, after: bool, ghost i: nat)
      requires Nodes(nodes, ring) && Links(nodes, ring) && i <= |ring| && place == At(ring, if after then i else i + 1)
      modifies this`nodes
      ensures nodes == LinkIn(old(nodes), ring, i, x, data)
    {
      assert Joined(nodes, At(ring, i), At(ring, i + 1));
      Commute(nodes[x := Cell(Some(At(ring, i)), Some(At(ring, i + 1)), Some(data))], At(ring, i), Some(x), At(ring, i + 1), Some(x));
      if after {
        InsertAfterNode(x, data, place);
      } else {
        InsertBeforeNode(x, data, place);
      }
    }

    method InsertAfterNode(x: nat, data: T, place: nat)
      requires place in nodes
      modifies this`nodes
      ensures var m := old(nodes)[x := Cell(Some(place), old(nodes[place].next), Some(data))];
        old(nodes[place].next).Some? ==> nodes == WithNext(WithPrev(m, old(nodes[place].next).value, Some(x)), place, Some(x))
    {
      var next := nodes[place].next;
      nodes := nodes[x := Cell(Some(place), next, Some(data))];
      if next.None? {
        nodes := WithPrev(nodes, ROOT, Some(x));
      } else {
        nodes := WithPrev(nodes, next.value, Some(x));
      }
      nodes := WithNext(nodes, place, Some(x));
    }

    method InsertBeforeNode(x: nat, data: T, place: nat)
      requires place in nodes
      modifies this`nodes
      ensures var m := old(nodes)[x := Cell(old(nodes[place].prev), Some(place), Some(data))];
        old(nodes[place].prev).Some? ==> nodes == WithPrev(WithNext(m, old(nodes[place].prev).value, Some(x)), place, Some(x))
    {
      var prev := nodes[place].prev;
      nodes := nodes[x := Cell(prev, Some(place), Some(data))];
      if prev.None? {
        nodes := WithNext(nodes, ROOT, Some(x));
      } else {
        nodes := WithNext(nodes, prev.value, Some(x));
      }
      nodes := WithPrev(nodes, place, Some(x));
    }

    /** `nbu_list_destroy_node` on the node at position `i`. */
    method DestroyNode(x: nat, ghost i: nat)
      requires Valid() && 0 < i <= |ring| && x == At(ring, i)
      modifies this
      ensures Valid() && cursor == old(cursor) && !Fresh(nodes, ring)
      ensures ring == Removed(old(ring), i)
      ensures Contents() == old(Contents()[..i - 1]) + old(Contents()[i..])
    {
      UnlinkWellFormed(nodes, ring, i);
      var next, prev := nodes[x].next, nodes[x].prev;
      nodes := WithPrev(nodes, OrRoot(next), prev);
      nodes := WithNext(nodes, OrRoot(prev), next);
      nodes := nodes - {x};
      ring := Removed(ring, i);
      count := count - 1;
    }

    // ----- the cursor -----

    method Start()
      requires Valid()
      modifies this`cursor
      ensures Valid() && Stands(1)
    {
      FreshTest(nodes, ring);
      cursor := nodes[ROOT].next;
    }

    method Next(ghost c: nat)
      requires Valid() && !Fresh(nodes, ring) && c <= |ring| && Stands(c)
      modifies this`cursor
      ensures Valid() && Stands(c + 1)
    {
      assert Joined(nodes, At(ring, c), At(ring, c + 1));
      cursor := nodes[cursor.value].next;
    }

    /** `nbu_list_iterator_is_valid`. */
    method AtNode(ghost c: nat) returns (b: bool)
      requires Valid() && Stands(c)
      ensures b <==> 0 < c <= |ring|
    {
      b := cursor.Some? && cursor.value != ROOT;
      if 0 < c <= |ring| { assert ring[c - 1] in ring; }
    }

    method Current(ghost c: nat) returns (d: T)
      requires Valid() && 0 < c <= |ring| && Stands(c)
      ensures d == Contents()[c - 1]
    {
      assert ring[c - 1] in ring;
      d := nodes[cursor.value].data.value;
    }

    /** `nbu_list_insert_before`; before the root, where every finished loop leaves the cursor, is at the end. */
    method InsertBefore(data: T, ghost c: nat) returns (ok: bool)
      requires Valid() && !Fresh(nodes, ring) && 0 < c <= |ring| + 1 && Stands(c)
      modifies this
      ensures ok && Valid() && Stands(c + 1)
      ensures Contents() == old(Contents()[..c - 1]) + [data] + old(Contents()[c - 1..])
    {
      InsertedAt(ring, c - 1, unused, c + 1);
      ok := Insert(data, cursor, false, c - 1);
    }

    /** `nbu_list_insert_after`; after the root is at the beginning. */
    method InsertAfter(data: T, ghost c: nat) returns (ok: bool)
      requires Valid() && !Fresh(nodes, ring) && c <= |ring| && Stands(c)
      modifies this
      ensures ok && Valid() && Stands(c)
      ensures Contents() == old(Contents()[..c]) + [data] + old(Contents()[c..])
    {
      InsertedAt(ring, c, unused, c);
      ok := Insert(data, cursor, true, c);
    }

    method InsertBegin(data: T) returns (ok: bool)
      requires Valid()
      modifies this
      ensures ok && Valid() && cursor == old(cursor) && Contents() == [data] + old(Contents())
    {
      FreshTest(nodes, ring);
      ok := Insert(data, nodes[ROOT].next, false, 0);
    }

    method InsertEnd(data: T) returns (ok: bool)
      requires Valid()
      modifies this
      ensures ok && Valid() && cursor == old(cursor) && Contents() == old(Contents()) + [data]
    {
      FreshTest(nodes, ring);
      ok := Insert(data, nodes[ROOT].prev, true, |ring|);
    }

    /** Without a cursor, an insertion next to it works only as the very first one. */
    method InsertAtNowhere(data: T, after: bool) returns (ok: bool)
      requires Valid() && cursor == None
      modifies this
      ensures Valid() && cursor == None && (ok <==> old(Fresh(nodes, ring)))
      ensures Contents() == if ok then [data] else old(Contents())
    {
      ok := Insert(data, cursor, after, 0);
    }

    method DeleteForward(ghost c: nat)
      requires Valid() && 0 < c <= |ring| && Stands(c)
      modifies this
      ensures Valid() && Stands(c) && !Fresh(nodes, ring)
      ensures Contents() == old(Contents()[..c - 1]) + old(Contents()[c..])
    {
      assert Joined(nodes, At(ring, c), At(ring, c + 1));
      RemovedAt(ring, c, c);
      var next := nodes[cursor.value].next;
      DestroyNode(cursor.value, c);
      cursor := next;
    }

    method DeleteBackward(ghost c: nat)
      requires Valid() && 0 < c <= |ring| && Stands(c)
      modifies this
      ensures Valid() && Stands(c - 1) && !Fresh(nodes, ring)
      ensures Contents() == old(Contents()[..c - 1]) + old(Contents()[c..])
    {
      assert Joined(nodes, At(ring, c - 1), At(ring, c));
      RemovedAt(ring, c, c - 1);
      var prev := nodes[cursor.value].prev;
      DestroyNode(cursor.value, c);
      cursor := prev;
    }

    method DeleteBegin()
      requires Valid() && ring != []
      modifies this
      ensures Valid() && cursor == old(cursor) && Contents() == old(Contents())[1..]
    {
      FreshTest(nodes, ring);
      DestroyNode(nodes[ROOT].next.value, 1);
    }

    method DeleteEnd()
      requires Valid() && ring != []
      modifies this
      ensures Valid() && cursor == old(cursor) && Contents() == old(Contents())[..|old(Contents())| - 1]
    {
      FreshTest(nodes, ring);
      DestroyNode(nodes[ROOT].prev.value, |ring|);
    }

    /** `nbu_list_destroy`, up to freeing the list itself. */
    method Clear()
      requires Valid()
      modifies this
      ensures Valid() && Contents() == []
    {
      Start();
      var b := AtNode(1);
      while b
        invariant Valid() && Stands(1) && (b <==> ring != [])
        decreases |ring|
      {
        DeleteForward(1);
        b := AtNode(1);
      }
    }
  }

  // ----- sorting -----

  /** `sort_func(a, b) > 0` for a comparison function that orders its arguments. */
  ghost predicate Ordering<T(!new)>(gt: (T, T) -> bool) {
    && (forall a, b :: gt(a, b) ==> !gt(b, a))
    && (forall a, b, c :: !gt(a, b) && !gt(b, c) ==> !gt(a, c))
  }

  /** Before the first element that `x` is not greater than. */
  function InsertSorted<T>(gt: (T, T) -> bool, x: T, s: seq<T>): seq<T> {
    if s == [] then [x]
    else if !gt(x, s[0]) then [x] + s
    else [s[0]] + InsertSorted(gt, x, s[1..])
  }

  function SortOnto<T>(gt: (T, T) -> bool, s: seq<T>, acc: seq<T>): seq<T> {
    if s == [] then acc else SortOnto(gt, s[1..], InsertSorted(gt, s[0], acc))
  }

  ghost predicate Sorted<T>(gt: (T, T) -> bool, s: seq<T>) {
    forall i, j | 0 <= i < j < |s| :: !gt(s[i], s[j])
  }

  lemma {:induction false} InsertSortedSorts<T(!new)>(gt: (T, T) -> bool, x: T, s: seq<T>)
    requires Ordering(gt) && Sorted(gt, s)
    ensures Sorted(gt, InsertSorted(gt, x, s))
    ensures multiset(InsertSorted(gt, x, s)) == multiset(s) + multiset{x}
  {
    if s != [] {
      assert s == [s[0]] + s[1..];
      if gt(x, s[0]) {
        InsertSortedSorts(gt, x, s[1..]);
        var t := InsertSorted(gt, x, s[1..]);
        forall j | 0 <= j < |t| ensures !gt(s[0], t[j]) {
          assert t[j] in multiset(t);
          if t[j] != x { assert t[j] in s[1..]; }
        }
      }
    }
  }

  /** The result is in order and has the same elements, each as often. */
  lemma {:induction false} SortSorts<T(!new)>(gt: (T, T) -> bool, s: seq<T>, acc: seq<T>)
    requires Ordering(gt) && Sorted(gt, acc)
    ensures Sorted(gt, SortOnto(gt, s, acc))
    ensures multiset(SortOnto(gt, s, acc)) == multiset(s) + multiset(acc)
    decreases |s|
  {
    if s != [] {
      InsertSortedSorts(gt, s[0], acc);
      SortSorts(gt, s[1..], InsertSorted(gt, s[0], acc));
      assert s == [s[0]] + s[1..];
    }
  }

  /** The elements neither before nor after `e`, in order. */
  function Ties<T>(gt: (T, T) -> bool, e: T, s: seq<T>): seq<T> {
    if s == [] then []
    else Tie(gt, e, s[0]) + Ties(gt, e, s[1..])
  }

  function Reverse<T>(s: seq<T>): seq<T> { if s == [] then [] else Reverse(s[1..]) + [s[0]] }

  function Tie<T>(gt: (T, T) -> bool, e: T, x: T): seq<T> { if !gt(x, e) && !gt(e, x) then [x] else [] }

  lemma {:induction false} InsertSortedTies<T(!new)>(gt: (T, T) -> bool, x: T, s: seq<T>, e: T)
    requires Ordering(gt)
    ensures Ties(gt, e, InsertSorted(gt, x, s)) == Tie(gt, e, x) + Ties(gt, e, s)
  {
    if s == [] {
      assert [x][1..] == [];
    } else if !gt(x, s[0]) {
      assert ([x] + s)[1..] == s;
    } else {
      var t := InsertSorted(gt, x, s[1..]);
      InsertSortedTies(gt, x, s[1..], e);
      assert ([s[0]] + t)[1..] == t;
      TieOrder(gt, x, s[0], e);
      Swap(Tie(gt, e, s[0]), Tie(gt, e, x), Ties(gt, e, s[1..]));
    }
  }

  /** Two elements of which one is greater do not both tie with a third. */
  lemma TieOrder<T(!new)>(gt: (T, T) -> bool, x: T, y: T, e: T)
    requires Ordering(gt) && gt(x, y)
    ensures Tie(gt, e, x) == [] || Tie(gt, e, y) == []
  {}

  lemma Swap<T>(a: seq<T>, b: seq<T>, c: seq<T>)
    requires a == [] || b == []
    ensures a + (b + c) == b + (a + c)
  {
    assert [] + (b + c) == b + c && a + ([] + c) == a + c;
    assert [] + c == c && [] + (a + c) == a + c;
  }

  /** Elements that compare equal come out in the opposite order. */
  lemma {:induction false} SortReversesTies<T(!new)>(gt: (T, T) -> bool, s: seq<T>, acc: seq<T>, e: T)
    requires Ordering(gt)
    ensures Ties(gt, e, SortOnto(gt, s, acc)) == Reverse(Ties(gt, e, s)) + Ties(gt, e, acc)
    decreases |s|
  {
    if s != [] {
      SortReversesTies(gt, s[1..], InsertSorted(gt, s[0], acc), e);
      InsertSortedTies(gt, s[0], acc, e);
      ReverseTie(Tie(gt, e, s[0]), Ties(gt, e, s[1..]), Ties(gt, e, acc));
    }
  }

  lemma ReverseTie<T>(a: seq<T>, b: seq<T>, c: seq<T>)
    requires |a| <= 1
    ensures Reverse(a + b) + c == Reverse(b) + (a + c)
  {
    if a == [] {
      assert a + b == b && a + c == c;
    } else {
      assert (a + b)[1..] == b && [a[0]] == a;
    }
  }

  /** Skipping elements that `x` is greater than. */
  lemma {:induction false} InsertSortedSkips<T>(gt: (T, T) -> bool, x: T, s: seq<T>, k: nat)
    requires k <= |s| && forall j | 0 <= j < k :: gt(x, s[j])
    ensures InsertSorted(gt, x, s) == s[..k] + InsertSorted(gt, x, s[k..])
  {
    if k > 0 {
      var t := s[1..];
      InsertSortedSkips(gt, x, t, k - 1);
      assert t[k - 1..] == s[k..];
      Regroup([s[0]], t[..k - 1], InsertSorted(gt, x, s[k..]));
      assert [s[0]] + t[..k - 1] == s[..k];
    }
  }

  lemma InsertSortedAt<T>(gt: (T, T) -> bool, x: T, s: seq<T>, k: nat)
    requires k <= |s| && (forall j | 0 <= j < k :: gt(x, s[j])) && (k < |s| ==> !gt(x, s[k]))
    ensures InsertSorted(gt, x, s) == s[..k] + [x] + s[k..]
    ensures k == |s| ==> InsertSorted(gt, x, s) == s + [x]
  {
    InsertSortedSkips(gt, x, s, k);
    assert InsertSorted(gt, x, s[k..]) == [x] + s[k..];
    Regroup(s[..k], [x], s[k..]);
  }

  /** The search of the inner loop: the first element that `data` is not greater than, if any. */
  method FindPlace<T>(list: List<T>, gt: (T, T) -> bool, data: T) returns (found: bool, ghost c: nat)
    requires list.Valid()
    modifies list`cursor
    ensures list.Valid() && list.Stands(c) && 0 < c <= |list.Contents()| + 1
    ensures found <==> c <= |list.Contents()|
    ensures forall j | 0 <= j < c - 1 :: gt(data, list.Contents()[j])
    ensures found ==> !gt(data, list.Contents()[c - 1])
  {
    list.Start();
    c := 1;
    found := list.AtNode(c);
    while found
      invariant list.Valid() && list.Stands(c) && 0 < c <= |list.Contents()| + 1
      invariant found <==> c <= |list.Contents()|
      invariant forall j | 0 <= j < c - 1 :: gt(data, list.Contents()[j])
      decreases |list.ring| + 1 - c
    {
      var d := list.Current(c);
      if !gt(data, d) {
        return;
      }
      list.Next(c);
      c := c + 1;
      found := list.AtNode(c);
    }
  }

  /** The inner loop of `nbu_list_sort`. */
  method InsertInOrder<T>(list: List<T>, gt: (T, T) -> bool, data: T)
    requires list.Valid()
    modifies list
    ensures list.Valid() && list.Contents() == InsertSorted(gt, data, old(list.Contents()))
  {
    ghost var s := list.Contents();
    var found, c := FindPlace(list, gt, data);
    InsertSortedAt(gt, data, s, c - 1);
    if found {
      var ok := list.InsertBefore(data, c);
    } else {
      var ok := list.InsertEnd(data);
    }
  }

  /** One round of the outer loop. */
  method SortNext<T>(list: List<T>, sorted: List<T>, gt: (T, T) -> bool, ghost c: nat) returns (b: bool)
    requires list != sorted && list.Valid() && sorted.Valid() && 0 < c <= |list.Contents()| && list.Stands(c)
    modifies list`cursor, sorted
    ensures list.Valid() && list.Contents() == old(list.Contents()) && list.Stands(c + 1)
    ensures b <==> c < |list.Contents()|
    ensures sorted.Valid() && sorted.Contents() == InsertSorted(gt, list.Contents()[c - 1], old(sorted.Contents()))
  {
    var d := list.Current(c);
    InsertInOrder(sorted, gt, d);
    list.Next(c);
    b := list.AtNode(c + 1);
  }

  /** The outer loop; `rest` is what it has not reached yet. */
  method SortInto<T>(list: List<T>, sorted: List<T>, gt: (T, T) -> bool)
    requires list != sorted && list.Valid() && sorted.Valid() && sorted.Contents() == []
    modifies list`cursor, sorted
    ensures list.Valid() && list.Contents() == old(list.Contents())
    ensures sorted.Valid() && sorted.Contents() == SortOnto(gt, list.Contents(), [])
  {
    ghost var all, done: seq<T>, rest := list.Contents(), [], list.Contents();
    ghost var want := SortOnto(gt, all, []);
    list.Start();
    var b := list.AtNode(1);
    while b
      invariant list.Valid() && list.Stands(|done| + 1) && list.Contents() == all == done + rest
      invariant sorted.Valid() && (b <==> rest != []) && want == SortOnto(gt, rest, sorted.Contents())
      decreases |rest|
    {
      SplitFirst(done, rest);
      b := SortNext(list, sorted, gt, |done| + 1);
      done, rest := done + [rest[0]], rest[1..];
    }
  }

  lemma SplitFirst<T>(done: seq<T>, rest: seq<T>)
    requires rest != []
    ensures (done + rest)[|done|] == rest[0] && done + rest == (done + [rest[0]]) + rest[1..]
  {}

  /** `nbu_list_sort`: a new list; the old one is emptied. */
  method Sort<T(!new)>(list: List<T>, gt: (T, T) -> bool) returns (sorted: List<T>)
    requires list.Valid()
    modifies list
    ensures fresh(sorted) && sorted.Valid() && list.Valid() && list.Contents() == []
    ensures sorted.Contents() == SortOnto(gt, old(list.Contents()), [])
    ensures Ordering(gt) ==>
      && Sorted(gt, sorted.Contents())
      && multiset(sorted.Contents()) == multiset(old(list.Contents()))
  {
    sorted := new List();
    SortInto(list, sorted, gt);
    if Ordering(gt) { SortSorts(gt, list.Contents(), []); }
    list.Clear();
  }

  // ----- sessions -----

  const PRESESSION_TIMEOUT: int := 300
  const SESSION_TIMEOUT: int := 3600

  datatype Session = Session(id: string, activated: bool, seconds: int)

  predicate Expired(s: Session, now: int) {
    (!s.activated && s.seconds + PRESESSION_TIMEOUT < now) || s.seconds + SESSION_TIMEOUT < now
  }

  /** The sessions that have not expired, in order. */
  function Alive(s: seq<Session>, now: int): seq<Session> {
    if s == [] then [] else (if Expired(s[0], now) then [] else [s[0]]) + Alive(s[1..], now)
  }

  /** A session stays, as often as it was there, while it is at most an hour old, or five minutes if it was never
      activated. */
  lemma {:induction false} AliveExactly(s: seq<Session>, now: int, x: Session)
    ensures var limit := if x.activated then 3600 else 300;
      multiset(Alive(s, now))[x] == if now - x.seconds <= limit then multiset(s)[x] else 0
  {
    if s != [] {
      AliveExactly(s[1..], now, x);
      var first := if Expired(s[0], now) then [] else [s[0]];
      Counted(s, [s[0]], s[1..], x);
      Counted(Alive(s, now), first, Alive(s[1..], now), x);
    }
  }

  lemma Counted<T>(s: seq<T>, a: seq<T>, b: seq<T>, x: T)
    requires s == a + b
    ensures multiset(s)[x] == multiset(a)[x] + multiset(b)[x]
  {}

  /** The order is kept: what stays of two lists, one after the other, is what stays of each. */
  lemma {:induction false} AliveInOrder(s: seq<Session>, t: seq<Session>, now: int)
    ensures Alive(s + t, now) == Alive(s, now) + Alive(t, now)
  {
    if s == [] {
      assert s + t == t;
    } else {
      AliveInOrder(s[1..], t, now);
      assert (s + t)[1..] == s[1..] + t;
      var first := if Expired(s[0], now) then [] else [s[0]];
      Regroup(first, Alive(s[1..], now), Alive(t, now));
    }
  }

  /** One round of the cleaner's loop, with the cursor behind the sessions kept so far: the next session goes
      or stays, and the cursor moves on. */
  method CleanOne(list: List<Session>, now: int, ghost kept: seq<Session>, ghost rest: seq<Session>) returns (gone: bool, more: bool)
    requires list.Valid() && rest != [] && list.Contents() == kept + rest && list.Stands(|kept| + 1)
    modifies list
    ensures list.Valid() && gone == Expired(rest[0], now) && (more <==> rest[1..] != [])
    ensures var kept' := if gone then kept else kept + [rest[0]];
      list.Contents() == kept' + rest[1..] && list.Stands(|kept'| + 1)
  {
    ghost var c := |kept| + 1;
    CleanStep(kept, rest);
    var session := list.Current(c);
    gone := false;
    if !session.activated && session.seconds + PRESESSION_TIMEOUT < now {
      list.DeleteBackward(c);
      gone := true;
    } else if session.seconds + SESSION_TIMEOUT < now {
      list.DeleteBackward(c);
      gone := true;
    }
    list.Next(if gone then c - 1 else c);
    more := list.AtNode(if gone then c else c + 1);
  }

  lemma CleanStep<T>(kept: seq<T>, rest: seq<T>)
    requires rest != []
    ensures var t, n := kept + rest, |kept|;
      && t[n] == rest[0]
      && t[..n] + t[n + 1..] == kept + rest[1..]
      && t == (kept + [rest[0]]) + rest[1..]
  {}

  lemma {:induction false} AliveStep(kept: seq<Session>, rest: seq<Session>, now: int)
    requires rest != []
    ensures kept + Alive(rest, now)
         == (if Expired(rest[0], now) then kept else kept + [rest[0]]) + Alive(rest[1..], now)
  {
    var tail := Alive(rest[1..], now);
    assert kept + ([] + tail) == kept + tail && kept + ([rest[0]] + tail) == kept + [rest[0]] + tail;
  }

  /** `ewf_session_cleaner`: deletes from the list it is walking. */
  method CleanSessions(list: List<Session>, now: int) returns (removed: nat)
    requires list.Valid()
    modifies list
    ensures list.Valid() && list.Contents() == Alive(old(list.Contents()), now)
    ensures removed == |old(list.Contents())| - |list.Contents()|
  {
    removed := 0;
    ghost var all, n, kept, rest := Alive(list.Contents(), now), |list.Contents()|, [], list.Contents();
    list.Start();
    var b := list.AtNode(1);
    while b
      invariant list.Valid() && list.Stands(|kept| + 1) && (b <==> rest != [])
      invariant list.Contents() == kept + rest && all == kept + Alive(rest, now)
      invariant removed == n - |kept| - |rest|
      decreases |rest|
    {
      AliveStep(kept, rest, now);
      var gone;
      gone, b := CleanOne(list, now, kept, rest);
      if gone {
        removed := removed + 1;
      } else {
        kept := kept + [rest[0]];
      }
      rest := rest[1..];
    }
  }
}
