/**
 The table-definition state machine of `parseDocument`: it folds the statements of a document into a tree
 of tables, and decides every redefinition from string-keyed bookkeeping alone.

 Go maps that make up the tree are shared by reference (`root`, `current`, array elements), so they are nodes of a
 store here and a reference is a node number. A value written as an array or an inline table is kept as an
 immediate `Literal`; a walk that would continue inside one ends in the outcome `EntersLiteral`, which
 TableSoundness proves never happens.
 */
module TableMachine {
  import opened Results
  import opened Decimal
  import opened Paths

  /** A scalar; floats and date-times are kept as their source text. */
  datatype Atom = Text(s: string) | Integer(n: int) | Boolean(b: bool) | Unread(raw: string)

  /** A parsed right-hand side. An inline table lists its entries in some iteration order of the Go map. */
  datatype Literal =
    | Scalar(atom: Atom)
    | Array(items: seq<Literal>)
    | InlineTable(entries: seq<Field>)

  datatype Field = Field(key: Segment, value: Literal)

  datatype Entry =
    | Value(literal: Literal)
    | Table(node: nat)
    | Tables(elements: seq<nat>)

  type Node = map<Segment, Entry>
  type Store = seq<Node>
  type Marks = map<string, string>
  type Epochs = map<string, nat>

  datatype Statement =
    | Header(path: KeyPath)
    | ArrayHeader(path: KeyPath)
    | KeyValue(key: KeyPath, value: Literal)

  datatype Fault =
    | RedefinesArrayTable
    | RedefinesDottedTable
    | ExtendsInlineTable
    | DuplicateTable
    | RedefinesTableAsArray
    | ExtendsExplicitTable
    | RedefinesValueAsTable
    | RedefinesValueAsArray
    | DuplicateKey
    | EntersLiteral

  // ----- Marks on encoded paths -----

  /** `declarationContext`: the longest prefix of `path[..i]` that is an array of tables, with its epoch. */
  function ContextFrom(path: Path, i: nat, epochs: Epochs): string
    requires i <= |path|
  {
    if i == 0 then ""
    else
      var prefix := Encode(path[..i]);
      if prefix in epochs && epochs[prefix] > 0 then prefix + "#" + OfNat(epochs[prefix])
      else ContextFrom(path, i - 1, epochs)
  }

  function Context(path: Path, epochs: Epochs): string {
    ContextFrom(path, |path|, epochs)
  }

  predicate MarkedNow(marks: Marks, path: Path, epochs: Epochs) {
    Encode(path) in marks && marks[Encode(path)] == Context(path, epochs)
  }

  predicate ClosedPrefix(path: Path, closed: Marks, epochs: Epochs) {
    exists i :: 1 <= i <= |path| && MarkedNow(closed, path[..i], epochs)
  }

  function MarkClosed(closed: Marks, path: Path, value: Literal, epochs: Epochs): Marks
    decreases value
  {
    match value
    case Scalar(_) => closed
    case InlineTable(entries) =>
      MarkClosedEntries(closed[Encode(path) := Context(path, epochs)], path, entries, epochs)
    case Array(items) =>
      MarkClosedItems(closed[Encode(path) := Context(path, epochs)], path, items, epochs)
  }

  function MarkClosedEntries(closed: Marks, path: Path, entries: seq<Field>, epochs: Epochs): Marks
    decreases entries
  {
    if entries == [] then closed
    else
      MarkClosedEntries(MarkClosed(closed, path + [entries[0].key], entries[0].value, epochs), path, entries[1..], epochs)
  }

  function MarkClosedItems(closed: Marks, path: Path, items: seq<Literal>, epochs: Epochs): Marks
    decreases items
  {
    if items == [] then closed
    else
      var marked :=
        if items[0].InlineTable? then MarkClosedEntries(closed, path, items[0].entries, epochs) else closed;
      MarkClosedItems(marked, path, items[1..], epochs)
  }

  /** Marks the proper prefixes of `fullPath` longer than `currentLength`, from length `i` up. */
  function MarkDotted(dotted: Marks, fullPath: Path, i: nat, epochs: Epochs): Marks
    decreases |fullPath| - i
  {
    if i >= |fullPath| then dotted
    else
      var prefix := fullPath[..i];
      MarkDotted(dotted[Encode(prefix) := Context(prefix, epochs)], fullPath, i + 1, epochs)
  }

  /** The check a dotted key makes of its proper prefixes, shortest first. */
  function CheckDotted(declared: Marks, closed: Marks, fullPath: Path, i: nat, epochs: Epochs): (r: Result<(), Fault>)
    ensures r.Err? ==> r.error.ExtendsExplicitTable? || r.error.ExtendsInlineTable?
    decreases |fullPath| - i
  {
    if i >= |fullPath| then Ok(())
    else if Encode(fullPath[..i]) in declared then Err(ExtendsExplicitTable)
    else if MarkedNow(closed, fullPath[..i], epochs) then Err(ExtendsInlineTable)
    else CheckDotted(declared, closed, fullPath, i + 1, epochs)
  }

  // ----- The store of table nodes -----

  predicate WfEntry(e: Entry, size: nat) {
    match e
    case Value(_) => true
    case Table(n) => n < size
    case Tables(ns) => ns != [] && forall i :: 0 <= i < |ns| ==> ns[i] < size
  }

  predicate Wf(nodes: Store) {
    forall n, k :: 0 <= n < |nodes| && k in nodes[n] ==> WfEntry(nodes[n][k], |nodes|)
  }

  /** The node `ensureTableRaw` steps to through an entry: a table, or the last element of an array of tables. */
  function Through(e: Entry): Option<nat> {
    match e
    case Table(n) => Some(n)
    case Tables(ns) => if ns == [] then None else Some(ns[|ns| - 1])
    case Value(_) => None
  }

  /** The node a path leads to from `cur` in the tree as it stands. */
  function Resolve(nodes: Store, cur: nat, path: Path): Option<nat>
    decreases |path|
  {
    if path == [] then Some(cur)
    else if cur >= |nodes| || path[0] !in nodes[cur] then None
    else
      match Through(nodes[cur][path[0]])
      case None => None
      case Some(next) => Resolve(nodes, next, path[1..])
  }

  datatype Place = Place(nodes: Store, at: nat)

  predicate OpensAsTable(v: Literal) {
    v.InlineTable? || (v.Array? && v.items != [] && v.items[|v.items| - 1].InlineTable?)
  }

  function Bind(nodes: Store, n: nat, k: Segment, e: Entry): Store
    requires n < |nodes|
  {
    nodes[n := nodes[n][k := e]]
  }

  /** Binds `k` in node `n` to a fresh empty table. */
  function NewTable(nodes: Store, n: nat, k: Segment): Store
    requires n < |nodes|
  {
    Bind(nodes, n, k, Table(|nodes|)) + [map[]]
  }

  function EnsureTable(nodes: Store, cur: nat, path: Path): (r: Result<Place, Fault>)
    requires Wf(nodes) && cur < |nodes|
    ensures r.Ok? ==> Grows(nodes, r.value.nodes) && r.value.at < |r.value.nodes|
    ensures r.Ok? ==> Resolve(r.value.nodes, cur, path) == Some(r.value.at)
    decreases |path|
  {
    if path == [] then GrowsReflexive(nodes); Ok(Place(nodes, cur))
    else if path[0] !in nodes[cur] then
      NewTableGrows(nodes, cur, path[0]);
      var r := EnsureTable(NewTable(nodes, cur, path[0]), |nodes|, path[1..]);
      if r.Ok? then
        GrowsTransitive(nodes, NewTable(nodes, cur, path[0]), r.value.nodes); r
      else r
    else
      match nodes[cur][path[0]]
      case Value(v) => Err(if OpensAsTable(v) then EntersLiteral else RedefinesValueAsTable)
      case Table(n) => EnsureTable(nodes, n, path[1..])
      case Tables(ns) => EnsureTable(nodes, ns[|ns| - 1], path[1..])
  }

  /** Binds `name` in node `at` to an array of tables that ends in a fresh empty table. */
  function AppendTable(nodes: Store, at: nat, name: Segment, before: seq<nat>): Store
    requires at < |nodes|
  {
    Bind(nodes, at, name, Tables(before + [|nodes|])) + [map[]]
  }

  function AppendArrayTable(nodes: Store, path: KeyPath): Result<Place, Fault>
    requires Wf(nodes) && nodes != []
  {
    var parent :- EnsureTable(nodes, 0, path[..|path| - 1]);
    var name := path[|path| - 1];
    var here := parent.nodes[parent.at];
    if name !in here then Ok(Place(AppendTable(parent.nodes, parent.at, name, []), |parent.nodes|))
    else
      match here[name]
      case Tables(ns) => Ok(Place(AppendTable(parent.nodes, parent.at, name, ns), |parent.nodes|))
      case Value(v) => Err(if v.Array? then EntersLiteral else RedefinesValueAsArray)
      case Table(_) => Err(RedefinesValueAsArray)
  }

  function AssignUnique(nodes: Store, cur: nat, key: KeyPath, value: Literal): (r: Result<Store, Fault>)
    requires Wf(nodes) && cur < |nodes|
    ensures r.Ok? ==> Grows(nodes, r.value)
    decreases |key|
  {
    if |key| == 1 then
      if key[0] in nodes[cur] then Err(DuplicateKey)
      else Ok(Bind(nodes, cur, key[0], Value(value)))
    else if key[0] !in nodes[cur] then
      NewTableGrows(nodes, cur, key[0]);
      var r := AssignUnique(NewTable(nodes, cur, key[0]), |nodes|, key[1..], value);
      if r.Ok? then
        GrowsTransitive(nodes, NewTable(nodes, cur, key[0]), r.value); r
      else r
    else
      match nodes[cur][key[0]]
      case Table(n) => AssignUnique(nodes, n, key[1..], value)
      case Value(v) => Err(if v.InlineTable? then EntersLiteral else RedefinesValueAsTable)
      case Tables(_) => Err(RedefinesValueAsTable)
  }

  // ----- Growth: what table creation and key assignment keep -----

  /** Every node an entry leads to is at least `lo`. */
  predicate LeadsTo(e: Entry, lo: nat) {
    match e
    case Value(_) => true
    case Table(n) => lo <= n
    case Tables(ns) => forall i :: 0 <= i < |ns| ==> lo <= ns[i]
  }

  ghost predicate Keeps(a: Store, b: Store) {
    |a| <= |b| && forall n, k :: 0 <= n < |a| && k in a[n] ==> k in b[n] && b[n][k] == a[n][k]
  }

  ghost predicate AddsOnlyFresh(a: Store, b: Store) {
    forall n, k :: 0 <= n < |b| && k in b[n] && (n >= |a| || k !in a[n]) ==> LeadsTo(b[n][k], |a|)
  }

  /** `b` holds every binding of `a` unchanged, and whatever else it binds leads to nodes `a` does not have. */
  ghost predicate Grows(a: Store, b: Store) {
    Wf(b) && Keeps(a, b) && AddsOnlyFresh(a, b)
  }

  lemma GrowsReflexive(a: Store)
    requires Wf(a)
    ensures Grows(a, a)
  {
  }

  lemma NewTableGrows(a: Store, n: nat, k: Segment)
    requires Wf(a) && n < |a| && k !in a[n]
    ensures Grows(a, NewTable(a, n, k))
  {
  }

  lemma GrowsTransitive(a: Store, b: Store, c: Store)
    requires Grows(a, b) && Grows(b, c)
    ensures Grows(a, c)
  {
    forall n, k | 0 <= n < |c| && k in c[n] && (n >= |a| || k !in a[n])
      ensures LeadsTo(c[n][k], |a|)
    {
      if n >= |b| || k !in b[n] {
        assert LeadsTo(c[n][k], |b|);
      } else {
        assert c[n][k] == b[n][k];
      }
    }
  }

  // ----- One statement, and a whole document -----

  datatype State = State(
    nodes: Store, current: nat, currentPath: Path,
    declared: Marks, dotted: Marks, closed: Marks, arrays: set<string>, epochs: Epochs)

  const Initial := State([map[]], 0, [], map[], map[], map[], {}, map[])

  predicate Valid(st: State) {
    Wf(st.nodes) && st.nodes != [] && st.current < |st.nodes|
  }

  function Bump(epochs: Epochs, e: string): Epochs {
    epochs[e := (if e in epochs then epochs[e] else 0) + 1]
  }

  function StepHeader(st: State, path: KeyPath): (r: Result<State, Fault>)
    requires Valid(st)
    ensures r.Ok? ==> Valid(r.value)
  {
    var e := Encode(path);
    if e in st.arrays then Err(RedefinesArrayTable)
    else if MarkedNow(st.dotted, path, st.epochs) then Err(RedefinesDottedTable)
    else if ClosedPrefix(path, st.closed, st.epochs) then Err(ExtendsInlineTable)
    else if MarkedNow(st.declared, path, st.epochs) then Err(DuplicateTable)
    else
      var next :- EnsureTable(st.nodes, 0, path);
      Ok(st.(nodes := next.nodes, current := next.at, currentPath := path,
             declared := st.declared[e := Context(path, st.epochs)]))
  }

  function StepArrayHeader(st: State, path: KeyPath): (r: Result<State, Fault>)
    requires Valid(st)
    ensures r.Ok? ==> Valid(r.value)
  {
    var e := Encode(path);
    if e in st.declared then Err(RedefinesTableAsArray)
    else if MarkedNow(st.dotted, path, st.epochs) then Err(RedefinesDottedTable)
    else if ClosedPrefix(path, st.closed, st.epochs) then Err(ExtendsInlineTable)
    else
      var next :- AppendArrayTable(st.nodes, path);
      Ok(st.(nodes := next.nodes, current := next.at, currentPath := path,
             arrays := st.arrays + {e}, epochs := Bump(st.epochs, e)))
  }

  function StepKeyValue(st: State, key: KeyPath, value: Literal): (r: Result<State, Fault>)
    requires Valid(st)
    ensures r.Ok? ==> Valid(r.value)
  {
    var full := st.currentPath + key;
    if |key| == 1 then
      var nodes :- AssignUnique(st.nodes, st.current, key, value);
      Ok(st.(nodes := nodes, closed := MarkClosed(st.closed, full, value, st.epochs)))
    else
      var _ :- CheckDotted(st.declared, st.closed, full, |st.currentPath| + 1, st.epochs);
      var nodes :- AssignUnique(st.nodes, st.current, key, value);
      Ok(st.(nodes := nodes,
             dotted := MarkDotted(st.dotted, full, |st.currentPath| + 1, st.epochs),
             closed := MarkClosed(st.closed, full, value, st.epochs)))
  }

  function Step(st: State, s: Statement): (r: Result<State, Fault>)
    requires Valid(st)
    ensures r.Ok? ==> Valid(r.value)
  {
    match s
    case Header(path) => StepHeader(st, path)
    case ArrayHeader(path) => StepArrayHeader(st, path)
    case KeyValue(key, value) => StepKeyValue(st, key, value)
  }

  /** The state after the first `n` statements of a document, or the fault that stopped it. */
  function RunTo(statements: seq<Statement>, n: nat): (r: Result<State, Fault>)
    requires n <= |statements|
    ensures r.Ok? ==> Valid(r.value)
  {
    if n == 0 then Ok(Initial)
    else
      var st :- RunTo(statements, n - 1);
      Step(st, statements[n - 1])
  }

  function Run(statements: seq<Statement>): (r: Result<State, Fault>) {
    RunTo(statements, |statements|)
  }
}
