/** Saving a configuration and reading it back: menu tree, evaluator and file together. */
module SaveAndReload {
  import opened Common
  import opened Expressions
  import opened SymbolTable
  import opened Evaluator
  import opened MenuLinks
  import Menus
  import File = ConfigFile

  // ----- what is saved -----

  function SettingOf(d: SymbolDef, v: SymbolValue): File.Setting {
    if d.ty in {Boolean, Tristate} then File.Level(v.tri) else File.Text(v.str)
  }

  predicate InFile(d: SymbolDef, env: Assignment) { d.ty in {Boolean, Tristate, Str} && Written(d, env) }

  function RecordOf(defs: seq<SymbolDef>, env: Assignment, i: nat): File.Record
    requires i < |defs|
  {
    File.Value(defs[i].name, SettingOf(defs[i], env(Config(i, defs[i].ty))))
  }

  /** An entry of the menu as `conf_write` sees it: a heading that shows, a symbol, or nothing to print. */
  datatype Item = Title(text: string) | Line(i: nat) | Nothing

  /** Whether a heading shows, and its text, is given by `titles`. */
  function ItemOf(entry: Menus.Entry, title: Option<string>): Item {
    match entry.sym
    case None => (match title case None => Nothing case Some(text) => Title(text))
    case Some(Config(i, _)) => if entry.choice then Nothing else Line(i)
    case _ => Nothing
  }

  /** The records of the entries in order; a symbol is printed at its first entry only. */
  function Emitted(defs: seq<SymbolDef>, env: Assignment, items: seq<Item>, printed: set<nat>): seq<File.Record> {
    if items == [] then []
    else match items[0]
      case Title(text) => [File.Heading(text)] + Emitted(defs, env, items[1..], printed)
      case Line(i) =>
        if i < |defs| && InFile(defs[i], env) && i !in printed then
          [RecordOf(defs, env, i)] + Emitted(defs, env, items[1..], printed + {i})
        else Emitted(defs, env, items[1..], printed)
      case Nothing => Emitted(defs, env, items[1..], printed)
  }

  function Listed(items: seq<Item>): set<nat> { set x | x in items && x.Line? :: x.i }

  /** The records hold the setting of every listed symbol that is written, and no other setting. */
  ghost predicate Saves(defs: seq<SymbolDef>, env: Assignment, listed: set<nat>, rs: seq<File.Record>) {
    && (forall i | i in listed && i < |defs| && InFile(defs[i], env) :: RecordOf(defs, env, i) in rs)
    && (forall r | r in rs && r.Value? ::
          exists i | i in listed && i < |defs| && InFile(defs[i], env) :: r == RecordOf(defs, env, i))
  }

  lemma {:induction false} EmittedRecord(defs: seq<SymbolDef>, env: Assignment, items: seq<Item>, printed: set<nat>, i: nat)
    requires Line(i) in items && i < |defs| && InFile(defs[i], env) && i !in printed
    ensures RecordOf(defs, env, i) in Emitted(defs, env, items, printed)
  {
    if items[0] != Line(i) {
      var j := if items[0].Line? then items[0].i else 0;
      var more := items[0].Line? && j < |defs| && InFile(defs[j], env) && j !in printed;
      EmittedRecord(defs, env, items[1..], if more then printed + {j} else printed, i);
    }
  }

  lemma {:induction false} EmittedOnly(defs: seq<SymbolDef>, env: Assignment, items: seq<Item>, printed: set<nat>, r: File.Record)
    requires r in Emitted(defs, env, items, printed) && r.Value?
    ensures exists i: nat :: Line(i) in items && i < |defs| && InFile(defs[i], env) && i !in printed && r == RecordOf(defs, env, i)
  {
    var j := if items[0].Line? then items[0].i else 0;
    var more := items[0].Line? && j < |defs| && InFile(defs[j], env) && j !in printed;
    if more && r == RecordOf(defs, env, j) {
      assert Line(j) in items;
    } else {
      EmittedOnly(defs, env, items[1..], if more then printed + {j} else printed, r);
    }
  }

  lemma EmittedSaves(defs: seq<SymbolDef>, env: Assignment, items: seq<Item>)
    ensures Saves(defs, env, Listed(items), Emitted(defs, env, items, {}))
  {
    var rs := Emitted(defs, env, items, {});
    forall i | i in Listed(items) && i < |defs| && InFile(defs[i], env) ensures RecordOf(defs, env, i) in rs {
      EmittedRecord(defs, env, items, {}, i);
    }
    forall r | r in rs && r.Value?
      ensures exists i | i in Listed(items) && i < |defs| && InFile(defs[i], env) :: r == RecordOf(defs, env, i)
    {
      EmittedOnly(defs, env, items, {}, r);
    }
  }

  /** What is printed once the records of an entry are. */
  function PrintedAfter(defs: seq<SymbolDef>, env: Assignment, x: Item, printed: set<nat>): set<nat> {
    if x.Line? && x.i < |defs| && InFile(defs[x.i], env) then printed + {x.i} else printed
  }

  lemma {:induction false} EmittedNext(defs: seq<SymbolDef>, env: Assignment, items: seq<Item>, n: nat, printed: set<nat>)
    requires n < |items|
    ensures Emitted(defs, env, items[n..], printed)
         == Emitted(defs, env, [items[n]], printed) + Emitted(defs, env, items[n + 1..], PrintedAfter(defs, env, items[n], printed))
  {
    assert items[n..][0] == items[n] && items[n..][1..] == items[n + 1..];
    assert [items[n]][1..] == [];
    assert items[n].Line? && items[n].i in printed ==> printed + {items[n].i} == printed;
  }

  // ----- saving -----

  ghost predicate Writable(e: Engine, items: seq<Item>)
    reads e
  {
    && (forall d | d in e.defs :: d.ty !in {Int, Hex})
    && (forall x | x in items && x.Line? :: x.i < |e.defs|)
  }

  /** The records of one entry. */
  method WriteItem(e: Engine, x: Item) returns (rs: seq<File.Record>)
    requires e.Sound() && Writable(e, [x])
    modifies e`cells, e`printed
    ensures e.Sound() && rs == Emitted(e.defs, e.Env(), [x], old(e.printed))
    ensures e.printed == PrintedAfter(e.defs, e.Env(), x, old(e.printed))
  {
    rs := [];
    match x
    case Title(text) => rs := [File.Heading(text)];
    case Line(i) =>
      assert e.defs[i] in e.defs;
      var v, b := e.TakeMark(i);
      if b {
        rs := [File.Value(e.defs[i].name, SettingOf(e.defs[i], v))];
      }
    case Nothing =>
  }

  /** The printing loop over the entries in the order of the walk. */
  method WriteItems(e: Engine, items: seq<Item>) returns (rs: seq<File.Record>)
    requires e.Sound() && e.printed == {} && Writable(e, items)
    modifies e`cells, e`printed
    ensures e.Sound() && rs == Emitted(e.defs, e.Env(), items, {})
  {
    rs := [];
    for n := 0 to |items|
      invariant e.Sound()
      invariant Emitted(e.defs, e.Env(), items, {}) == rs + Emitted(e.defs, e.Env(), items[n..], e.printed)
    {
      EmittedNext(e.defs, e.Env(), items, n, e.printed);
      assert items[n] in items;
      var r := WriteItem(e, items[n]);
      Regroup(rs, r, Emitted(e.defs, e.Env(), items[n + 1..], e.printed));
      rs := rs + r;
    }
  }

  function ItemsOf(entries: Menus.Entries, titles: seq<Option<string>>, visited: seq<nat>): seq<Item> {
    seq(|visited|, n requires 0 <= n < |visited| =>
      if visited[n] < |entries| && visited[n] < |titles| then ItemOf(entries[visited[n]], titles[visited[n]]) else Nothing)
  }

  /** The entry stands for the symbol `i` and is no choice. */
  predicate IsFor(entry: Menus.Entry, i: nat) {
    entry.sym.Some? && entry.sym.value.Config? && entry.sym.value.id == i && !entry.choice
  }

  /** The symbols printed are those of the visited entries that are no choices; the headings are those of the visited
      entries without a symbol that show. */
  lemma PrintedEntries(entries: Menus.Entries, titles: seq<Option<string>>, visited: seq<nat>, i: nat, text: string)
    requires |titles| == |entries| && forall n | n in visited :: n < |entries|
    ensures var items := ItemsOf(entries, titles, visited);
      && (i in Listed(items) <==> exists n | n in visited :: IsFor(entries[n], i))
      && (Title(text) in items <==> exists n | n in visited :: entries[n].sym.None? && titles[n] == Some(text))
  {
    var items := ItemsOf(entries, titles, visited);
    assert |items| == |visited|;
    forall k | 0 <= k < |visited| ensures visited[k] < |entries| { assert visited[k] in visited; }
    if i in Listed(items) {
      var k :| 0 <= k < |items| && items[k] == Line(i);
      assert visited[k] in visited && IsFor(entries[visited[k]], i);
    }
    if n :| n in visited && IsFor(entries[n], i) {
      var k :| 0 <= k < |visited| && visited[k] == n;
      assert items[k] in items;
    }
    if Title(text) in items {
      var k :| 0 <= k < |items| && items[k] == Title(text);
      assert visited[k] in visited;
    }
    if n :| n in visited && entries[n].sym.None? && titles[n] == Some(text) {
      var k :| 0 <= k < |visited| && visited[k] == n;
      assert items[k] in items;
    }
  }

  /** `conf_write`: walk the menu, evaluate each symbol, and print it if its write mark is set; then print the file. */
  method SaveConfig(e: Engine, tree: MenuTree, root: nat, titles: seq<Option<string>>, ghost k: Menus.Forest)
    returns (text: string, ghost rs: seq<File.Record>)
    requires e.Valid() && Writable(e, ItemsOf(tree.entries, titles, Menus.Preorder(k)))
    requires root < |tree.links| && tree.links[root].parent == None && tree.links[root].next == None
    requires Seg(tree.links, tree.links[root].list, None, Some(root), k)
    modifies e`cells, e`changes, e`printed
    ensures e.Valid() && e.Env() == old(e.Env())
    ensures var items := ItemsOf(tree.entries, titles, Menus.Preorder(k));
      && rs == Emitted(e.defs, e.Env(), items, {}) && Saves(e.defs, e.Env(), Listed(items), rs)
    ensures text == File.TextOf(rs)
  {
    e.BeginSave();
    var visited := tree.Walk(root, k);
    var items := ItemsOf(tree.entries, titles, visited);
    var out := WriteItems(e, items);
    EmittedSaves(e.defs, e.Env(), items);
    text := File.WriteFile(out);
    rs := out;
    e.EndSave();
  }

  // ----- reading it back -----

  ghost predicate DistinctNames(defs: seq<SymbolDef>) {
    forall i, j | 0 <= i < j < |defs| :: defs[i].name != defs[j].name
  }

  /** What the lines read make of `sym->user`. */
  function InputOf(m: File.Settings, d: SymbolDef): Input {
    if d.name !in m then UNSET
    else match m[d.name]
      case Level(t) => Input(SymbolValue("", t), false)
      case Text(s) => Input(SymbolValue(s, No), false)
  }

  /** A name no record mentions keeps its setting; one that all its records agree on gets it. */
  lemma {:induction false} StoredSetting(m: File.Settings, rs: seq<File.Record>, name: string, x: File.Setting)
    requires forall r | r in rs && r.Value? && r.name == name :: r.setting == x
    ensures var m' := File.StoreAll(m, rs);
      && (File.Value(name, x) in rs ==> name in m' && m'[name] == x)
      && (File.Value(name, x) !in rs ==> (name in m' <==> name in m) && (name in m ==> m'[name] == m[name]))
    decreases |rs|
  {
    if rs != [] {
      var m0 := File.StoreRecord(m, rs[0]);
      assert rs[0] in rs;
      assert File.Value(name, x) in rs <==> File.Value(name, x) == rs[0] || File.Value(name, x) in rs[1..];
      StoredSetting(m0, rs[1..], name, x);
    }
  }

  /** After the round trip a listed symbol that was written has its setting; any other has what it had before. */
  lemma SavedSetting(defs: seq<SymbolDef>, env: Assignment, listed: set<nat>, rs: seq<File.Record>, m: File.Settings, i: nat)
    requires Saves(defs, env, listed, rs) && DistinctNames(defs) && i < |defs|
    ensures var m', d := File.StoreAll(m, rs), defs[i];
      if i in listed && InFile(d, env) then d.name in m' && m'[d.name] == SettingOf(d, env(Config(i, d.ty)))
      else (d.name in m' <==> d.name in m) && (d.name in m ==> m'[d.name] == m[d.name])
  {
    var x := SettingOf(defs[i], env(Config(i, defs[i].ty)));
    forall r | r in rs && r.Value? && r.name == defs[i].name
      ensures r == File.Value(defs[i].name, x) && i in listed && InFile(defs[i], env)
    {
      var j :| j in listed && j < |defs| && InFile(defs[j], env) && r == RecordOf(defs, env, j);
      assert j == i;
    }
    StoredSetting(m, rs, defs[i].name, x);
    assert i in listed && InFile(defs[i], env) ==> RecordOf(defs, env, i) in rs;
  }

  /** Symbols without an entry have no prompt and are never visible. */
  ghost predicate OthersHidden(defs: seq<SymbolDef>, env: Assignment, listed: set<nat>) {
    forall i | 0 <= i < |defs| && i !in listed :: Visibility(defs[i], env) == No
  }

  /** Reading back the file of a configuration, after any other settings were read, changes the value of no symbol,
      whatever the reader then does to the inputs of invisible ones. Every listed symbol that is written has a setting
      and evaluates to it, and without earlier settings no other symbol has one: nothing counts as unsaved. */
  lemma FileKeepsValues(defs: seq<SymbolDef>, rank: seq<nat>, inputs: seq<Input>, types: File.Types, listed: set<nat>, rs: seq<File.Record>, m: File.Settings, inputs': seq<Input>)
    requires Acyclic(defs, rank) && |inputs| == |inputs'| == |defs| && DistinctNames(defs)
    requires forall d | d in defs :: d.ty !in {Int, Hex}
    requires forall r | r in rs :: File.Clean(types, r) && File.Storable(types, r)
    requires var env := Denotation(defs, rank, inputs);
      && Saves(defs, env, listed, rs) && OthersHidden(defs, env, listed)
      && var m' := File.ReadText(types, File.TextOf(rs), m);
      forall i | 0 <= i < |defs| && Visibility(defs[i], env) != No :: inputs'[i] == InputOf(m', defs[i])
    ensures var env, env' := Denotation(defs, rank, inputs), Denotation(defs, rank, inputs');
      var m' := File.ReadText(types, File.TextOf(rs), m);
      && (forall s :: env'(s) == env(s))
      && (forall i | 0 <= i < |defs| && i in listed && InFile(defs[i], env') ::
            defs[i].name in m' && m'[defs[i].name] == SettingOf(defs[i], env'(Config(i, defs[i].ty))))
      && (forall i | 0 <= i < |defs| && defs[i].name !in m && !(i in listed && InFile(defs[i], env')) :: defs[i].name !in m')
  {
    var env, env' := Denotation(defs, rank, inputs), Denotation(defs, rank, inputs');
    File.FileRoundTrip(types, rs, m);
    DenotationSolves(defs, rank, inputs);
    forall i | 0 <= i < |defs|
      ensures Reloads(defs[i], env, env(Config(i, defs[i].ty)), inputs'[i])
    {
      assert defs[i] in defs;
      SavedSetting(defs, env, listed, rs, m, i);
    }
    ReloadKeeps(defs, rank, inputs, inputs');
    forall i | 0 <= i < |defs|
      ensures InFile(defs[i], env') == InFile(defs[i], env)
    {
      MeaningLocal(defs[i], inputs[i], env, env');
    }
    forall i | 0 <= i < |defs|
      ensures var m', d := File.StoreAll(m, rs), defs[i];
        if i in listed && InFile(d, env) then d.name in m' && m'[d.name] == SettingOf(d, env(Config(i, d.ty)))
        else (d.name in m' <==> d.name in m)
    {
      SavedSetting(defs, env, listed, rs, m, i);
    }
  }

  // ----- both -----

  /** The reader's requirements on what is about to be written. */
  ghost predicate Readable(types: File.Types, rs: seq<File.Record>) {
    && (forall r | r in rs :: File.Clean(types, r) && File.Storable(types, r))
    && File.NUL !in File.TextOf(rs)
  }

  /** Save, forget every user value, read the file, and every symbol has the value it had. */
  method SaveThenLoad(e: Engine, tree: MenuTree, root: nat, titles: seq<Option<string>>, types: File.Types, ghost k: Menus.Forest)
    requires e.Valid() && DistinctNames(e.defs)
    requires root < |tree.links| && tree.links[root].parent == None && tree.links[root].next == None
    requires Seg(tree.links, tree.links[root].list, None, Some(root), k)
    requires var items := ItemsOf(tree.entries, titles, Menus.Preorder(k));
      && Writable(e, items) && OthersHidden(e.defs, e.Env(), Listed(items))
      && Readable(types, Emitted(e.defs, e.Env(), items, {}))
    modifies e`inputs, e`cells, e`changes, e`printed
    ensures e.Valid() && forall s :: e.Env()(s) == old(e.Env())(s)
  {
    ghost var inputs, items := e.inputs, ItemsOf(tree.entries, titles, Menus.Preorder(k));
    var text, rs := SaveConfig(e, tree, root, titles, k);
    File.WrittenReadable(rs);
    var m := File.ReadFile(types, text);
    var user := seq(|e.defs|, i requires 0 <= i < |e.defs| => InputOf(m, e.defs[i]));
    FileKeepsValues(e.defs, e.rank, inputs, types, Listed(items), rs, map[], user);
    e.Load(user);
  }
}
