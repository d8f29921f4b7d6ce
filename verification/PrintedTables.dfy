/**
 The statements the printer makes of a tree of maps build that tree again: the table-definition machine accepts them
 all, and the tables it ends with hold what the tree holds and nothing else.
 */
module PrintedTables {
  import opened Results
  import opened Paths
  import opened TableMachine
  import opened Printer

  // ----- Trees, and tables that hold them -----

  predicate DistinctKeys(fields: seq<Field>) {
    forall i, j :: 0 <= i < j < |fields| ==> fields[i].key != fields[j].key
  }

  /** Maps with distinct keys, none of which holds NUL. */
  predicate WellKeyed(v: Literal)
    decreases v
  {
    match v
    case Scalar(_) => true
    case Array(items) => forall i :: 0 <= i < |items| ==> WellKeyed(items[i])
    case InlineTable(entries) =>
      DistinctKeys(entries)
      && forall i :: 0 <= i < |entries| ==> NulFreeText(entries[i].key) && WellKeyed(entries[i].value)
  }

  predicate WellKeyedFields(fields: seq<Field>) {
    DistinctKeys(fields)
    && forall i :: 0 <= i < |fields| ==> NulFreeText(fields[i].key) && WellKeyed(fields[i].value)
  }

  function KeysOf(fields: seq<Field>): set<Segment> {
    set i | 0 <= i < |fields| :: fields[i].key
  }

  /** The table at `n` holds exactly these fields. */
  ghost predicate Represents(nodes: Store, n: nat, fields: seq<Field>)
    decreases fields, 1
  {
    && n < |nodes| && nodes[n].Keys == KeysOf(fields)
    && forall i :: 0 <= i < |fields| ==>
         fields[i].key in nodes[n] && EntryRepresents(nodes, n, nodes[n][fields[i].key], fields[i].value)
  }

  /** A binding of the table at `n` holds this value; the tables under it are all newer than `n`. */
  ghost predicate EntryRepresents(nodes: Store, n: nat, e: Entry, v: Literal)
    decreases v, 0
  {
    if IsMap(v) then e.Table? && n < e.node && Represents(nodes, e.node, v.entries)
    else if IsArrayOfTables(v) then
      e.Tables? && |e.elements| == |v.items|
      && forall i :: 0 <= i < |v.items| ==>
           IsMap(v.items[i]) && n < e.elements[i] && Represents(nodes, e.elements[i], v.items[i].entries)
    else e == Value(v)
  }

  predicate SameFrom(nodes: Store, nodes': Store, lo: nat) {
    |nodes| <= |nodes'| && forall m :: lo <= m < |nodes| ==> nodes'[m] == nodes[m]
  }

  lemma {:induction false} RepresentsKept(nodes: Store, nodes': Store, n: nat, fields: seq<Field>)
    requires Represents(nodes, n, fields) && SameFrom(nodes, nodes', n)
    ensures Represents(nodes', n, fields)
    decreases fields, 1
  {
    forall i | 0 <= i < |fields|
      ensures fields[i].key in nodes'[n] && EntryRepresents(nodes', n, nodes'[n][fields[i].key], fields[i].value)
    {
      assert fields[i].key in nodes[n];
      EntryKept(nodes, nodes', n, nodes[n][fields[i].key], fields[i].value);
    }
  }

  lemma {:induction false} EntryKept(nodes: Store, nodes': Store, n: nat, e: Entry, v: Literal)
    requires EntryRepresents(nodes, n, e, v) && SameFrom(nodes, nodes', n + 1)
    ensures EntryRepresents(nodes', n, e, v)
    decreases v, 0
  {
    if IsMap(v) {
      RepresentsKept(nodes, nodes', e.node, v.entries);
    } else if IsArrayOfTables(v) {
      forall i | 0 <= i < |v.items|
        ensures IsMap(v.items[i]) && n < e.elements[i] && Represents(nodes', e.elements[i], v.items[i].entries)
      {
        assert Represents(nodes, e.elements[i], v.items[i].entries);
        RepresentsKept(nodes, nodes', e.elements[i], v.items[i].entries);
      }
    }
  }

  // ----- Runs from a state -----

  function RunFrom(st: State, statements: seq<Statement>): (r: Result<State, Fault>)
    requires Valid(st)
    ensures r.Ok? ==> Valid(r.value)
    decreases |statements|
  {
    if statements == [] then Ok(st)
    else
      var next :- Step(st, statements[0]);
      RunFrom(next, statements[1..])
  }

  lemma {:induction false} RunFromBoth(st: State, a: seq<Statement>, b: seq<Statement>)
    requires Valid(st) && RunFrom(st, a).Ok?
    ensures RunFrom(st, a + b) == RunFrom(RunFrom(st, a).value, b)
    decreases |a|
  {
    hide Step;
    if a == [] {
      assert a + b == b;
    } else {
      assert (a + b)[1..] == a[1..] + b;
      RunFromBoth(Step(st, a[0]).value, a[1..], b);
    }
  }

  lemma RunFromOne(st: State, s: Statement)
    requires Valid(st)
    ensures RunFrom(st, [s]) == Step(st, s)
  {
    hide Step;
    assert [s][1..] == [];
  }

  lemma {:induction false} RunIsRunFrom(statements: seq<Statement>, n: nat)
    requires n <= |statements|
    ensures RunTo(statements, n) == RunFrom(Initial, statements[..n])
    decreases n
  {
    hide Step;
    if n > 0 {
      var front, last := statements[..n - 1], statements[n - 1];
      RunIsRunFrom(statements, n - 1);
      assert statements[..n] == front + [last];
      if RunFrom(Initial, front).Ok? {
        RunFromBoth(Initial, front, [last]);
        RunFromOne(RunFrom(Initial, front).value, last);
      } else {
        FailedFrom(Initial, front, [last]);
      }
    }
  }

  lemma {:induction false} FailedFrom(st: State, a: seq<Statement>, b: seq<Statement>)
    requires Valid(st) && RunFrom(st, a).Err?
    ensures RunFrom(st, a + b) == RunFrom(st, a)
    decreases |a|
  {
    hide Step;
    if a != [] {
      assert (a + b)[0] == a[0] && (a + b)[1..] == a[1..] + b;
      if Step(st, a[0]).Ok? {
        FailedFrom(Step(st, a[0]).value, a[1..], b);
      }
    }
  }

  // ----- Marks -----

  /** Nothing is recorded of a path. */
  predicate Unmarked(st: State, p: Path) {
    Encode(p) !in st.declared && Encode(p) !in st.closed && Encode(p) !in st.arrays && Encode(p) !in st.epochs
  }

  predicate SameMarks(st: State, st': State, p: Path) {
    && (Encode(p) in st.declared <==> Encode(p) in st'.declared)
    && (Encode(p) in st.closed <==> Encode(p) in st'.closed)
    && (Encode(p) in st.arrays <==> Encode(p) in st'.arrays)
    && (Encode(p) in st.epochs <==> Encode(p) in st'.epochs)
  }

  /** Nothing is recorded of a path or of any path under it. */
  ghost predicate Clean(st: State, q: KeyPath) {
    forall p: KeyPath :: NulFree(p) && q <= p ==> Unmarked(st, p)
  }

  predicate Under(path: Path, keys: set<Segment>, p: Path) {
    |path| < |p| && path <= p && p[|path|] in keys
  }

  /** What changed in the records is about paths under these keys of `path`. */
  ghost predicate MarksOnlyUnder(st: State, st': State, path: Path, keys: set<Segment>) {
    forall p: KeyPath :: NulFree(p) && !Under(path, keys, p) ==> SameMarks(st, st', p)
  }

  lemma MarksTransitive(a: State, b: State, c: State, path: Path, keys: set<Segment>, more: set<Segment>)
    requires MarksOnlyUnder(a, b, path, keys) && MarksOnlyUnder(b, c, path, more)
    ensures MarksOnlyUnder(a, c, path, keys + more)
  {
    forall p: KeyPath | NulFree(p) && !Under(path, keys + more, p) ensures SameMarks(a, c, p) {
      assert SameMarks(a, b, p) && SameMarks(b, c, p);
    }
  }

  lemma StaysClean(st: State, st': State, path: Path, keys: set<Segment>, k: Segment)
    requires Clean(st, path + [k]) && MarksOnlyUnder(st, st', path, keys) && k !in keys
    ensures Clean(st', path + [k])
  {
    forall p: KeyPath | NulFree(p) && path + [k] <= p ensures Unmarked(st', p) {
      assert p[|path|] == (path + [k])[|path|];
      assert SameMarks(st, st', p) && Unmarked(st, p);
    }
  }

  /** Closing a value records nothing but the value's path and paths under it. */
  lemma {:induction false} MarkClosedOnly(closed: Marks, path: KeyPath, v: Literal, epochs: Epochs, p: KeyPath)
    requires NulFree(path) && WellKeyed(v) && NulFree(p) && !(path <= p)
    ensures Encode(p) in MarkClosed(closed, path, v, epochs) <==> Encode(p) in closed
    decreases v
  {
    if Encode(p) == Encode(path) {
      EncodeInjective(p, path);
    }
    match v
    case Scalar(_) =>
    case InlineTable(entries) =>
      MarkEntriesOnly(closed[Encode(path) := Context(path, epochs)], path, entries, epochs, p);
    case Array(items) =>
      MarkItemsOnly(closed[Encode(path) := Context(path, epochs)], path, items, epochs, p);
  }

  lemma {:induction false} MarkEntriesOnly(closed: Marks, path: KeyPath, entries: seq<Field>, epochs: Epochs, p: KeyPath)
    requires NulFree(path) && NulFree(p) && !(path <= p)
    requires forall i :: 0 <= i < |entries| ==> NulFreeText(entries[i].key) && WellKeyed(entries[i].value)
    ensures Encode(p) in MarkClosedEntries(closed, path, entries, epochs) <==> Encode(p) in closed
    decreases entries
  {
    if entries != [] {
      assert NulFreeText(entries[0].key) && WellKeyed(entries[0].value);
      var child := path + [entries[0].key];
      assert path <= child;
      MarkClosedOnly(closed, child, entries[0].value, epochs, p);
      MarkEntriesOnly(MarkClosed(closed, child, entries[0].value, epochs), path, entries[1..], epochs, p);
    }
  }

  lemma {:induction false} MarkItemsOnly(closed: Marks, path: KeyPath, items: seq<Literal>, epochs: Epochs, p: KeyPath)
    requires NulFree(path) && NulFree(p) && !(path <= p) && forall i :: 0 <= i < |items| ==> WellKeyed(items[i])
    ensures Encode(p) in MarkClosedItems(closed, path, items, epochs) <==> Encode(p) in closed
    decreases items
  {
    if items != [] {
      assert WellKeyed(items[0]);
      if items[0].InlineTable? {
        MarkEntriesOnly(closed, path, items[0].entries, epochs, p);
        MarkItemsOnly(MarkClosedEntries(closed, path, items[0].entries, epochs), path, items[1..], epochs, p);
      } else {
        MarkItemsOnly(closed, path, items[1..], epochs, p);
      }
    }
  }

  // ----- Walks along a path that is there -----

  /** Old bindings are kept, and among the old tables only `n` has new ones. */
  ghost predicate GrowsAt(nodes: Store, nodes': Store, n: nat) {
    && |nodes| <= |nodes'|
    && (forall m :: 0 <= m < |nodes| && m != n ==> nodes'[m] == nodes[m])
    && (n < |nodes| ==> forall k :: k in nodes[n] ==> k in nodes'[n] && nodes'[n][k] == nodes[n][k])
  }

  lemma {:induction false} ResolveKept(nodes: Store, nodes': Store, n: nat, cur: nat, path: Path)
    requires GrowsAt(nodes, nodes', n) && Resolve(nodes, cur, path).Some?
    ensures Resolve(nodes', cur, path) == Resolve(nodes, cur, path)
    decreases |path|
  {
    if path != [] {
      ResolveKept(nodes, nodes', n, Through(nodes[cur][path[0]]).value, path[1..]);
    }
  }

  lemma {:induction false} EnsureThere(nodes: Store, cur: nat, path: Path)
    requires Wf(nodes) && cur < |nodes| && Resolve(nodes, cur, path).Some?
    ensures EnsureTable(nodes, cur, path) == Ok(Place(nodes, Resolve(nodes, cur, path).value))
    decreases |path|
  {
    if path != [] {
      var e := nodes[cur][path[0]];
      assert WfEntry(e, |nodes|);
      EnsureThere(nodes, Through(e).value, path[1..]);
    }
  }

  lemma {:induction false} EnsureNewChild(nodes: Store, cur: nat, path: Path, k: Segment)
    requires Wf(nodes) && cur < |nodes| && Resolve(nodes, cur, path).Some?
    requires Resolve(nodes, cur, path).value < |nodes| && k !in nodes[Resolve(nodes, cur, path).value]
    ensures EnsureTable(nodes, cur, path + [k])
         == Ok(Place(NewTable(nodes, Resolve(nodes, cur, path).value, k), |nodes|))
    decreases |path|
  {
    if path == [] {
      assert path + [k] == [k] && [k][1..] == [];
      var mid := NewTable(nodes, cur, k);
      NewTableGrows(nodes, cur, k);
      assert EnsureTable(mid, |nodes|, []) == Ok(Place(mid, |nodes|));
    } else {
      var e := nodes[cur][path[0]];
      assert WfEntry(e, |nodes|);
      assert (path + [k])[0] == path[0] && (path + [k])[1..] == path[1..] + [k];
      EnsureNewChild(nodes, Through(e).value, path[1..], k);
    }
  }

  // ----- One table at a time -----

  /** `path` leads to the table `n`, and neither it nor anything above it was closed. */
  ghost predicate InTable(st: State, path: Path, n: nat) {
    && Valid(st) && NulFree(path) && st.dotted == map[]
    && n < |st.nodes| && Resolve(st.nodes, 0, path) == Some(n)
    && (forall i :: 1 <= i <= |path| ==> Encode(path[..i]) !in st.closed)
  }

  /** What processing fields of the table `n` keeps. */
  ghost predicate Extends(st: State, st': State, path: Path, n: nat, keys: set<Segment>) {
    && InTable(st', path, n) && GrowsAt(st.nodes, st'.nodes, n)
    && MarksOnlyUnder(st, st', path, keys) && st'.nodes[n].Keys == (if n < |st.nodes| then st.nodes[n].Keys else {}) + keys
  }

  lemma UnderKey(path: Path, k: Segment, p: Path)
    ensures Under(path, {k}, p) <==> path + [k] <= p
  {
    if path + [k] <= p {
      assert p[|path|] == (path + [k])[|path|];
    }
    if Under(path, {k}, p) {
      assert p[..|path| + 1] == path + [k];
    }
  }

  lemma NoPrefixUnder(path: Path, keys: set<Segment>, i: nat)
    requires 1 <= i <= |path|
    ensures !Under(path, keys, path[..i])
  {
  }

  /** The table stays where it is while fields of it are processed. */
  lemma StaysInTable(st: State, st': State, path: Path, n: nat, keys: set<Segment>)
    requires InTable(st, path, n) && Valid(st') && st'.dotted == map[] && GrowsAt(st.nodes, st'.nodes, n)
    requires MarksOnlyUnder(st, st', path, keys)
    ensures InTable(st', path, n)
  {
    ResolveKept(st.nodes, st'.nodes, n, 0, path);
    forall i | 1 <= i <= |path| ensures Encode(path[..i]) !in st'.closed {
      NoPrefixUnder(path, keys, i);
      assert SameMarks(st, st', path[..i]);
    }
  }

  lemma ExtendsTransitive(a: State, b: State, c: State, path: Path, n: nat, keys: set<Segment>, more: set<Segment>)
    requires InTable(a, path, n) && Extends(a, b, path, n, keys) && Extends(b, c, path, n, more)
    ensures Extends(a, c, path, n, keys + more)
  {
    MarksTransitive(a, b, c, path, keys, more);
  }

  /** A plain value is assigned in the table that is current. */
  lemma ValueRuns(st: State, f: Field, path: Path, n: nat) returns (st': State)
    requires InTable(st, path, n) && st.current == n && st.currentPath == path
    requires f.key !in st.nodes[n] && NulFreeText(f.key) && WellKeyed(f.value) && Clean(st, path + [f.key])
    ensures Step(st, KeyValue([f.key], f.value)) == Ok(st')
    ensures Extends(st, st', path, n, {f.key}) && st'.nodes[n][f.key] == Value(f.value)
    ensures st'.current == n && st'.currentPath == path && |st'.nodes| == |st.nodes|
  {
    hide Clean, Resolve, MarkClosed;
    var full := path + [f.key];
    st' := StepKeyValue(st, [f.key], f.value).value;
    forall p: KeyPath | NulFree(p) && !Under(path, {f.key}, p) ensures SameMarks(st, st', p) {
      UnderKey(path, f.key, p);
      MarkClosedOnly(st.closed, full, f.value, st.epochs, p);
    }
    StaysInTable(st, st', path, n, {f.key});
  }

  /** A header opens a new empty table under its parent. */
  lemma HeaderRuns(st: State, k: Segment, path: Path, n: nat) returns (st': State)
    requires InTable(st, path, n) && k !in st.nodes[n] && NulFreeText(k) && Clean(st, path + [k])
    ensures Step(st, Header(path + [k])) == Ok(st')
    ensures st'.nodes == NewTable(st.nodes, n, k) && st'.current == |st.nodes| && st'.currentPath == path + [k]
    ensures Extends(st, st', path, n, {k}) && InTable(st', path + [k], |st.nodes|)
    ensures forall p: KeyPath :: NulFree(p) && p != path + [k] ==> SameMarks(st, st', p)
  {
    hide Resolve;
    var here: KeyPath := path + [k];
    EnsureNewChild(st.nodes, 0, path, k);
    assert Unmarked(st, here);
    HeaderNotClosed(st, k, path, n);
    st' := StepHeader(st, here).value;
    forall p: KeyPath | NulFree(p) && p != here ensures SameMarks(st, st', p) {
      if Encode(p) == Encode(here) {
        EncodeInjective(p, here);
      }
    }
    forall p: KeyPath | NulFree(p) && !Under(path, {k}, p) ensures SameMarks(st, st', p) {
      UnderKey(path, k, p);
    }
    StaysInTable(st, st', path, n, {k});
  }

  lemma HeaderNotClosed(st: State, k: Segment, path: Path, n: nat)
    requires InTable(st, path, n) && Encode(path + [k]) !in st.closed
    ensures !ClosedPrefix(path + [k], st.closed, st.epochs)
    ensures forall i :: 1 <= i <= |path| + 1 ==> Encode((path + [k])[..i]) !in st.closed
  {
    var here := path + [k];
    forall i | 1 <= i <= |here| ensures Encode(here[..i]) !in st.closed {
      if i <= |path| {
        assert here[..i] == path[..i];
      } else {
        assert here[..i] == here;
      }
    }
  }

  /** One more element of an array of tables, the `count` before it being elements of the same printed array. */
  lemma ElementRuns(st: State, k: Segment, path: Path, n: nat, before: seq<nat>) returns (st': State)
    requires InTable(st, path, n) && NulFreeText(k)
    requires before == (if k in st.nodes[n] && st.nodes[n][k].Tables? then st.nodes[n][k].elements else [])
    requires k in st.nodes[n] ==> st.nodes[n][k].Tables?
    requires Encode(path + [k]) !in st.declared && Encode(path + [k]) !in st.closed
    ensures Step(st, ArrayHeader(path + [k])) == Ok(st')
    ensures st'.nodes == AppendTable(st.nodes, n, k, before)
    ensures st' == st.(nodes := st'.nodes, current := |st.nodes|, currentPath := path + [k],
                       arrays := st.arrays + {Encode(path + [k])}, epochs := Bump(st.epochs, Encode(path + [k])))
  {
    hide Resolve;
    var here: KeyPath := path + [k];
    assert here[..|here| - 1] == path;
    EnsureThere(st.nodes, 0, path);
    HeaderNotClosed(st, k, path, n);
    st' := StepArrayHeader(st, here).value;
  }

  function Repeat(s: Statement, count: nat): seq<Statement> {
    if count == 0 then [] else [s] + Repeat(s, count - 1)
  }

  lemma {:induction false} ElementsAreHeaders(items: seq<Literal>, path: KeyPath)
    requires forall i :: 0 <= i < |items| ==> items[i] == InlineTable([])
    ensures PrintElements(items, path) == Repeat(ArrayHeader(path), |items|)
  {
    if items != [] {
      ElementsAreHeaders(items[1..], path);
      assert PrintMap([], path) == [];
      assert [ArrayHeader(path)] + [] == [ArrayHeader(path)];
    }
  }

  /** What a run of element headers has done so far. */
  ghost predicate HoldsElements(st: State, st': State, k: Segment, path: Path, n: nat, count: nat) {
    && Extends(st, st', path, n, {k}) && st'.nodes[n][k].Tables? && |st'.nodes[n][k].elements| == count
    && (forall i :: 0 <= i < count ==>
          n < st'.nodes[n][k].elements[i] < |st'.nodes| && st'.nodes[st'.nodes[n][k].elements[i]] == map[])
    && Encode(path + [k]) !in st'.declared && Encode(path + [k]) !in st'.closed
  }

  lemma NextElementHeld(st: State, mid: State, st': State, k: Segment, path: Path, n: nat, before: seq<nat>)
    requires InTable(st, path, n) && k !in st.nodes[n] && NulFreeText(k) && Valid(st') && InTable(mid, path, n)
    requires mid == st || HoldsElements(st, mid, k, path, n, |before|)
    requires before == (if k in mid.nodes[n] && mid.nodes[n][k].Tables? then mid.nodes[n][k].elements else [])
    requires Encode(path + [k]) !in mid.declared && Encode(path + [k]) !in mid.closed
    requires st'.nodes == AppendTable(mid.nodes, n, k, before)
    requires st' == mid.(nodes := st'.nodes, current := |mid.nodes|, currentPath := path + [k],
                         arrays := mid.arrays + {Encode(path + [k])}, epochs := Bump(mid.epochs, Encode(path + [k])))
    ensures HoldsElements(st, st', k, path, n, |before| + 1)
  {
    hide Resolve;
    var here: KeyPath := path + [k];
    forall p: KeyPath | NulFree(p) && !Under(path, {k}, p) ensures SameMarks(st, st', p) {
      UnderKey(path, k, p);
      if Encode(p) == Encode(here) {
        EncodeInjective(p, here);
      }
      assert mid == st || SameMarks(st, mid, p);
    }
    assert GrowsAt(st.nodes, st'.nodes, n);
    StaysInTable(st, st', path, n, {k});
  }

  lemma {:induction false} ElementsRun(st: State, mid: State, k: Segment, path: Path, n: nat, done: nat, count: nat)
    returns (st': State)
    requires InTable(st, path, n) && k !in st.nodes[n] && NulFreeText(k) && Clean(st, path + [k])
    requires Valid(mid) && done + count > 0
    requires if done == 0 then mid == st else HoldsElements(st, mid, k, path, n, done)
    ensures RunFrom(mid, Repeat(ArrayHeader(path + [k]), count)) == Ok(st')
    ensures HoldsElements(st, st', k, path, n, done + count)
    decreases count
  {
    hide Resolve, Step, HoldsElements, InTable;
    st' := mid;
    if count > 0 {
      HeldMeans(st, mid, k, path, n, done);
      var before := if done == 0 then [] else mid.nodes[n][k].elements;
      var next := ElementRuns(mid, k, path, n, before);
      NextElementHeld(st, mid, next, k, path, n, before);
      st' := ElementsRun(st, next, k, path, n, done + 1, count - 1);
      var headers := Repeat(ArrayHeader(path + [k]), count);
      assert headers[1..] == Repeat(ArrayHeader(path + [k]), count - 1);
    }
  }

  lemma HeldMeans(st: State, mid: State, k: Segment, path: Path, n: nat, done: nat)
    requires InTable(st, path, n) && k !in st.nodes[n] && NulFreeText(k) && Clean(st, path + [k])
    requires if done == 0 then mid == st else HoldsElements(st, mid, k, path, n, done)
    ensures InTable(mid, path, n) && n < |mid.nodes|
    ensures Encode(path + [k]) !in mid.declared && Encode(path + [k]) !in mid.closed
    ensures done == 0 ==> k !in mid.nodes[n]
    ensures done > 0 ==> k in mid.nodes[n] && mid.nodes[n][k].Tables? && |mid.nodes[n][k].elements| == done
  {
    assert Unmarked(st, path + [k]);
  }

  // ----- Whole maps -----

  /** What the statements of one field leave: the field held at `n`, and nothing else new there. */
  ghost predicate FieldHeld(st: State, st': State, f: Field, path: Path, n: nat) {
    && Extends(st, st', path, n, {f.key}) && f.key in st'.nodes[n]
    && EntryRepresents(st'.nodes, n, st'.nodes[n][f.key], f.value)
  }

  lemma {:induction false} TableRuns(st: State, f: Field, path: Path, n: nat) returns (st': State)
    requires InTable(st, path, n) && f.key !in st.nodes[n] && NulFreeText(f.key) && WellKeyed(f.value)
    requires Clean(st, path + [f.key]) && IsTableLike(f.value)
    ensures RunFrom(st, PrintTable(f, path)) == Ok(st') && FieldHeld(st, st', f, path, n)
    decreases f, 1
  {
    if IsMap(f.value) {
      st' := MapRuns(st, f, path, n);
    } else {
      st' := ArrayRuns(st, f, path, n);
    }
  }

  lemma ArrayRuns(st: State, f: Field, path: Path, n: nat) returns (st': State)
    requires InTable(st, path, n) && f.key !in st.nodes[n] && NulFreeText(f.key)
    requires Clean(st, path + [f.key]) && IsArrayOfTables(f.value)
    ensures RunFrom(st, PrintTable(f, path)) == Ok(st') && FieldHeld(st, st', f, path, n)
  {
    ArrayOfTablesIff(f.value);
    hide Resolve, Clean, RunFrom, IsArrayOfTables;
    var items := f.value.items;
    ElementsAreHeaders(items, path + [f.key]);
    assert InTable(st, path, n) ==> Valid(st);
    st' := ElementsRun(st, st, f.key, path, n, 0, |items|);
    forall i | 0 <= i < |items|
      ensures Represents(st'.nodes, st'.nodes[n][f.key].elements[i], items[i].entries)
    {
      EmptyRepresents(st'.nodes, st'.nodes[n][f.key].elements[i]);
    }
  }

  lemma EmptyRepresents(nodes: Store, n: nat)
    requires n < |nodes| && nodes[n] == map[]
    ensures Represents(nodes, n, [])
  {
  }

  lemma {:induction false} MapRuns(st: State, f: Field, path: Path, n: nat) returns (st': State)
    requires InTable(st, path, n) && f.key !in st.nodes[n] && NulFreeText(f.key) && WellKeyed(f.value)
    requires Clean(st, path + [f.key]) && IsMap(f.value)
    ensures RunFrom(st, PrintTable(f, path)) == Ok(st') && FieldHeld(st, st', f, path, n)
    decreases f, 0
  {
    hide Resolve, Step, Clean, InTable, Extends, RunFrom;
    var here, entries := path + [f.key], f.value.entries;
    var mid := HeaderRuns(st, f.key, path, n);
    forall i | 0 <= i < |entries| ensures Clean(mid, here + [entries[i].key]) {
      HeaderKeepsClean(st, mid, here, entries[i].key);
    }
    InTableMeans(st, path, n);
    st' := PrintMapRuns(mid, entries, here, |st.nodes|);
    RunHeaderFirst(st, mid, here, PrintMap(entries, here));
    MapHeld(st, mid, st', f, path, n);
  }

  lemma InTableMeans(st: State, path: Path, n: nat)
    requires InTable(st, path, n)
    ensures Valid(st) && n < |st.nodes| && NulFree(path)
  {
  }

  lemma RunHeaderFirst(st: State, mid: State, here: KeyPath, rest: seq<Statement>)
    requires Valid(st) && Step(st, Header(here)) == Ok(mid)
    ensures RunFrom(st, [Header(here)] + rest) == RunFrom(mid, rest)
  {
    hide Step;
    assert ([Header(here)] + rest)[1..] == rest;
  }

  lemma HeaderKeepsClean(st: State, mid: State, here: KeyPath, k: Segment)
    requires Clean(st, here) && forall p: KeyPath :: NulFree(p) && p != here ==> SameMarks(st, mid, p)
    ensures Clean(mid, here + [k])
  {
    forall p: KeyPath | NulFree(p) && here + [k] <= p ensures Unmarked(mid, p) {
      assert here <= here + [k] <= p && p != here;
      assert SameMarks(st, mid, p) && Unmarked(st, p);
    }
  }

  lemma MapHeld(st: State, mid: State, st': State, f: Field, path: Path, n: nat)
    requires InTable(st, path, n) && f.key !in st.nodes[n] && IsMap(f.value)
    requires mid.nodes == NewTable(st.nodes, n, f.key) && Extends(st, mid, path, n, {f.key})
    requires Extends(mid, st', path + [f.key], |st.nodes|, KeysOf(f.value.entries))
    requires Represents(st'.nodes, |st.nodes|, f.value.entries)
    ensures FieldHeld(st, st', f, path, n)
  {
    hide Resolve, Represents;
    var here := path + [f.key];
    forall p: KeyPath | NulFree(p) && !Under(path, {f.key}, p) ensures SameMarks(st, st', p) {
      UnderKey(path, f.key, p);
      assert !Under(here, KeysOf(f.value.entries), p);
      assert SameMarks(st, mid, p) && SameMarks(mid, st', p);
    }
    assert GrowsAt(st.nodes, st'.nodes, n);
    StaysInTable(st, st', path, n, {f.key});
  }

  function PlainKeys(fields: seq<Field>): set<Segment> {
    if fields == [] then {}
    else PlainKeys(fields[1..]) + if IsTableLike(fields[0].value) then {} else {fields[0].key}
  }

  function TableKeys(fields: seq<Field>): set<Segment> {
    if fields == [] then {}
    else TableKeys(fields[1..]) + if IsTableLike(fields[0].value) then {fields[0].key} else {}
  }

  predicate HasKey(fields: seq<Field>, k: Segment) {
    exists i :: 0 <= i < |fields| && fields[i].key == k
  }

  lemma {:induction false} KeysSplit(fields: seq<Field>)
    ensures forall k :: k in PlainKeys(fields) || k in TableKeys(fields) <==> HasKey(fields, k)
    ensures DistinctKeys(fields) ==> PlainKeys(fields) !! TableKeys(fields)
    decreases |fields|
  {
    hide IsTableLike;
    if fields != [] {
      var f, rest := fields[0], fields[1..];
      KeysSplit(rest);
      forall k ensures HasKey(fields, k) <==> k == f.key || HasKey(rest, k) {
        FirstOrRest(fields, k);
      }
      if DistinctKeys(fields) {
        assert !HasKey(rest, f.key) by {
          assert forall i :: 0 <= i < |rest| ==> rest[i] == fields[i + 1];
        }
      }
    }
  }

  lemma FirstOrRest(fields: seq<Field>, k: Segment)
    requires fields != []
    ensures HasKey(fields, k) <==> k == fields[0].key || HasKey(fields[1..], k)
  {
    assert forall i :: 1 <= i < |fields| ==> fields[i] == fields[1..][i - 1];
    assert forall i :: 0 <= i < |fields| - 1 ==> fields[1..][i] == fields[i + 1];
  }

  /** Fields of one kind held at `n`. */
  ghost predicate Held(nodes: Store, n: nat, fields: seq<Field>, keys: set<Segment>) {
    n < |nodes|
    && forall i :: 0 <= i < |fields| && fields[i].key in keys ==>
         fields[i].key in nodes[n] && EntryRepresents(nodes, n, nodes[n][fields[i].key], fields[i].value)
  }

  ghost predicate ReadyFor(st: State, fields: seq<Field>, path: Path, n: nat, keys: set<Segment>) {
    && InTable(st, path, n) && WellKeyedFields(fields)
    && forall k :: k in keys ==> k !in st.nodes[n] && Clean(st, path + [k])
  }

  /** What was held stays held while other fields of the table are processed. */
  lemma HeldKept(st: State, st': State, path: Path, n: nat, fields: seq<Field>, keys: set<Segment>, more: set<Segment>)
    requires Held(st.nodes, n, fields, keys) && Extends(st, st', path, n, more)
    ensures Held(st'.nodes, n, fields, keys)
  {
    hide EntryRepresents;
    forall i | 0 <= i < |fields| && fields[i].key in keys
      ensures fields[i].key in st'.nodes[n] && EntryRepresents(st'.nodes, n, st'.nodes[n][fields[i].key], fields[i].value)
    {
      assert fields[i].key in st.nodes[n];
      EntryKept(st.nodes, st'.nodes, n, st.nodes[n][fields[i].key], fields[i].value);
    }
  }

  /** Two runs of fields, one after the other. */
  lemma HeldBoth(st: State, mid: State, st': State, path: Path, n: nat, f: Field, rest: seq<Field>, keys: set<Segment>)
    requires FieldHeld(st, mid, f, path, n) && Extends(mid, st', path, n, keys) && Held(st'.nodes, n, rest, keys)
    requires InTable(st, path, n) && f.key !in keys && DistinctKeys([f] + rest)
    ensures Extends(st, st', path, n, {f.key} + keys) && Held(st'.nodes, n, [f] + rest, {f.key} + keys)
  {
    hide EntryRepresents, Resolve;
    ExtendsTransitive(st, mid, st', path, n, {f.key}, keys);
    EntryKept(mid.nodes, st'.nodes, n, mid.nodes[n][f.key], f.value);
    var fields := [f] + rest;
    forall i | 0 <= i < |fields| && fields[i].key in {f.key} + keys
      ensures fields[i].key in st'.nodes[n] && EntryRepresents(st'.nodes, n, st'.nodes[n][fields[i].key], fields[i].value)
    {
      if i > 0 {
        assert fields[i] == rest[i - 1] && fields[0].key != fields[i].key;
      }
    }
  }

  /** After the first field the rest is ready. */
  lemma RestReady(st: State, mid: State, path: Path, n: nat, f: Field, rest: seq<Field>, keys: set<Segment>)
    requires ReadyFor(st, [f] + rest, path, n, keys + {f.key}) && Extends(st, mid, path, n, {f.key}) && f.key !in keys
    ensures ReadyFor(mid, rest, path, n, keys)
  {
    hide Clean, MarksOnlyUnder, Resolve;
    RestWellKeyed(f, rest);
    forall k | k in keys ensures k !in mid.nodes[n] && Clean(mid, path + [k]) {
      StaysClean(st, mid, path, {f.key}, k);
    }
  }

  lemma RestWellKeyed(f: Field, rest: seq<Field>)
    requires WellKeyedFields([f] + rest)
    ensures WellKeyedFields(rest) && NulFreeText(f.key) && WellKeyed(f.value)
    ensures forall i :: 0 <= i < |rest| ==> rest[i].key != f.key
  {
    var fields := [f] + rest;
    assert fields[0] == f;
    assert forall i :: 0 <= i < |rest| ==> rest[i] == fields[i + 1];
  }

  lemma KeysOfFirst(f: Field, rest: seq<Field>)
    requires forall i :: 0 <= i < |rest| ==> rest[i].key != f.key
    ensures PlainKeys([f] + rest) == PlainKeys(rest) + (if IsTableLike(f.value) then {} else {f.key})
    ensures TableKeys([f] + rest) == TableKeys(rest) + (if IsTableLike(f.value) then {f.key} else {})
    ensures f.key !in PlainKeys(rest) && f.key !in TableKeys(rest)
  {
    hide IsTableLike;
    assert ([f] + rest)[1..] == rest;
    KeysSplit(rest);
  }

  /** The plain values of the table that is current are all assigned. */
  lemma {:induction false} ValuesRun(st: State, fields: seq<Field>, path: Path, n: nat) returns (st': State)
    requires ReadyFor(st, fields, path, n, PlainKeys(fields)) && st.current == n && st.currentPath == path
    ensures RunFrom(st, PrintValues(fields)) == Ok(st')
    ensures Extends(st, st', path, n, PlainKeys(fields)) && Held(st'.nodes, n, fields, PlainKeys(fields))
    decreases |fields|
  {
    hide Step, IsTableLike, Clean, Resolve, EntryRepresents, RunFrom, Extends;
    InTableMeans(st, path, n);
    st' := st;
    if fields == [] {
      NothingRuns(st, path, n);
    } else {
      var f, rest := fields[0], fields[1..];
      assert fields == [f] + rest;
      RestWellKeyed(f, rest);
      KeysOfFirst(f, rest);
      if IsTableLike(f.value) {
        st' := ValuesRun(st, rest, path, n);
        assert PrintValues(fields) == PrintValues(rest) && PlainKeys(fields) == PlainKeys(rest);
        assert forall i :: 1 <= i < |fields| ==> fields[i] == rest[i - 1];
      } else {
        var mid := ValueRuns(st, f, path, n);
        PlainHeld(st, mid, f, path, n);
        RestReady(st, mid, path, n, f, rest, PlainKeys(rest));
        st' := ValuesRun(mid, rest, path, n);
        HeldBoth(st, mid, st', path, n, f, rest, PlainKeys(rest));
        RunFromHead(st, mid, KeyValue([f.key], f.value), PrintValues(rest));
        assert PlainKeys(fields) == {f.key} + PlainKeys(rest);
      }
    }
  }

  lemma NothingRuns(st: State, path: Path, n: nat)
    requires InTable(st, path, n)
    ensures RunFrom(st, []) == Ok(st) && Extends(st, st, path, n, {})
  {
  }

  lemma PlainHeld(st: State, mid: State, f: Field, path: Path, n: nat)
    requires !IsTableLike(f.value) && Extends(st, mid, path, n, {f.key}) && mid.nodes[n][f.key] == Value(f.value)
    ensures FieldHeld(st, mid, f, path, n)
  {
  }

  lemma RunFromHead(st: State, mid: State, s: Statement, rest: seq<Statement>)
    requires Valid(st) && Step(st, s) == Ok(mid)
    ensures RunFrom(st, [s] + rest) == RunFrom(mid, rest)
  {
    hide Step;
    assert ([s] + rest)[1..] == rest;
  }

  /** The tables and arrays of tables of a map are all opened and filled. */
  lemma {:induction false} TablesRun(st: State, fields: seq<Field>, path: Path, n: nat) returns (st': State)
    requires ReadyFor(st, fields, path, n, TableKeys(fields))
    ensures RunFrom(st, PrintTables(fields, path)) == Ok(st')
    ensures Extends(st, st', path, n, TableKeys(fields)) && Held(st'.nodes, n, fields, TableKeys(fields))
    decreases fields, 1
  {
    hide Step, IsTableLike, Clean, Resolve, EntryRepresents, RunFrom, Extends;
    InTableMeans(st, path, n);
    st' := st;
    if fields == [] {
      NothingRuns(st, path, n);
    } else {
      var f, rest := fields[0], fields[1..];
      assert fields == [f] + rest;
      RestWellKeyed(f, rest);
      KeysOfFirst(f, rest);
      if IsTableLike(f.value) {
        var mid := TableRuns(st, f, path, n);
        RestReady(st, mid, path, n, f, rest, TableKeys(rest));
        st' := TablesRun(mid, rest, path, n);
        HeldBoth(st, mid, st', path, n, f, rest, TableKeys(rest));
        RunFromBoth(st, PrintTable(f, path), PrintTables(rest, path));
        assert TableKeys(fields) == {f.key} + TableKeys(rest);
      } else {
        NoTablePrinted(f, path);
        st' := TablesRun(st, rest, path, n);
        assert PrintTables(fields, path) == PrintTables(rest, path) && TableKeys(fields) == TableKeys(rest);
        assert forall i :: 1 <= i < |fields| ==> fields[i] == rest[i - 1];
      }
    }
  }

  lemma NoTablePrinted(f: Field, path: Path)
    requires !IsTableLike(f.value)
    ensures PrintTable(f, path) == []
  {
  }

  /** The statements of a map, run in a new empty table, make it hold the map. */
  lemma {:induction false} PrintMapRuns(st: State, fields: seq<Field>, path: Path, n: nat) returns (st': State)
    requires InTable(st, path, n) && st.current == n && st.currentPath == path && st.nodes[n] == map[]
    requires WellKeyedFields(fields) && forall i :: 0 <= i < |fields| ==> Clean(st, path + [fields[i].key])
    ensures RunFrom(st, PrintMap(fields, path)) == Ok(st')
    ensures Extends(st, st', path, n, KeysOf(fields)) && Represents(st'.nodes, n, fields)
    decreases fields, 2
  {
    hide Step, IsTableLike, Clean, Resolve, EntryRepresents, RunFrom, MarksOnlyUnder, GrowsAt, WellKeyed, KeysOf, PlainKeys, TableKeys;
    KeysSplit(fields);
    forall k | HasKey(fields, k) ensures Clean(st, path + [k]) {
      var i :| 0 <= i < |fields| && fields[i].key == k;
    }
    var mid := ValuesRun(st, fields, path, n);
    forall k | k in TableKeys(fields) ensures k !in mid.nodes[n] && Clean(mid, path + [k]) {
      StaysClean(st, mid, path, PlainKeys(fields), k);
    }
    st' := TablesRun(mid, fields, path, n);
    RunFromBoth(st, PrintValues(fields), PrintTables(fields, path));
    ExtendsTransitive(st, mid, st', path, n, PlainKeys(fields), TableKeys(fields));
    HeldKept(mid, st', path, n, fields, PlainKeys(fields), TableKeys(fields));
    AllKeys(fields);
    assert forall i :: 0 <= i < |fields| ==> HasKey(fields, fields[i].key);
  }

  lemma AllKeys(fields: seq<Field>)
    ensures PlainKeys(fields) + TableKeys(fields) == KeysOf(fields)
  {
    KeysSplit(fields);
    assert forall k :: k in KeysOf(fields) <==> HasKey(fields, k);
  }

  /**
   The document printed for a tree of maps is accepted, and the tables it makes hold exactly that tree: every key, every
   value, every element of an array of tables, and nothing more.
   */
  lemma PrintedTreeIsRebuilt(fields: seq<Field>) returns (st: State)
    requires WellKeyedFields(fields)
    ensures Run(PrintMap(fields, [])) == Ok(st) && Represents(st.nodes, 0, fields)
  {
    hide PrintMap, Represents;
    forall i | 0 <= i < |fields| ensures Clean(Initial, [] + [fields[i].key]) {
    }
    st := PrintMapRuns(Initial, fields, [], 0);
    var statements := PrintMap(fields, []);
    RunIsRunFrom(statements, |statements|);
    assert statements[..|statements|] == statements;
  }
}
