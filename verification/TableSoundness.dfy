/**
 Why the string-keyed bookkeeping of `parseDocument` is sound: each mark speaks about the node its path leads to now,
 because an array-table header that changes the context of a path also cuts every longer path off from the nodes it
 used to lead to.
 */
module TableSoundness {
  import opened Results
  import opened Paths
  import opened TableMachine

  // ----- Walks -----

  lemma {:induction false} ResolveConcat(nodes: Store, cur: nat, p: Path, q: Path)
    ensures Resolve(nodes, cur, p + q) ==
            (if Resolve(nodes, cur, p).None? then None else Resolve(nodes, Resolve(nodes, cur, p).value, q))
    decreases |p|
  {
    if p == [] {
      assert p + q == q;
    } else {
      assert (p + q)[0] == p[0] && (p + q)[1..] == p[1..] + q;
      if cur < |nodes| && p[0] in nodes[cur] && Through(nodes[cur][p[0]]).Some? {
        ResolveConcat(nodes, Through(nodes[cur][p[0]]).value, p[1..], q);
      }
    }
  }

  /** Once a walk is among the nodes `a` lacks, it stays there. */
  lemma {:induction false} ResolveStaysFresh(a: Store, b: Store, cur: nat, p: Path)
    requires Grows(a, b) && |a| <= cur < |b| && Resolve(b, cur, p).Some?
    ensures |a| <= Resolve(b, cur, p).value
    decreases |p|
  {
    if p != [] {
      var e := b[cur][p[0]];
      assert LeadsTo(e, |a|) && WfEntry(e, |b|);
      ResolveStaysFresh(a, b, Through(e).value, p[1..]);
    }
  }

  /** Growth moves no path: it leads where it led, or it led nowhere and now leads to a new node. */
  lemma {:induction false} ResolveGrows(a: Store, b: Store, cur: nat, p: Path)
    requires Wf(a) && Grows(a, b) && cur < |a|
    ensures || Resolve(b, cur, p) == Resolve(a, cur, p)
            || (Resolve(a, cur, p).None? && Resolve(b, cur, p).Some? && |a| <= Resolve(b, cur, p).value)
    decreases |p|
  {
    if p != [] && p[0] in b[cur] {
      var e := b[cur][p[0]];
      if p[0] in a[cur] {
        assert e == a[cur][p[0]] && WfEntry(e, |a|);
        if Through(e).Some? {
          ResolveGrows(a, b, Through(e).value, p[1..]);
        }
      } else {
        assert LeadsTo(e, |a|) && WfEntry(e, |b|);
        if Through(e).Some? && Resolve(b, Through(e).value, p[1..]).Some? {
          ResolveStaysFresh(a, b, Through(e).value, p[1..]);
        }
      }
    }
  }

  // ----- Homes: the one path each node can be reached by -----

  /** The values a mark must close: arrays and inline tables. */
  predicate Closes(e: Entry) {
    e.Value? && !e.literal.Scalar?
  }

  ghost predicate ClosedNamed(u: iset<Path>, e: Entry, home: Path, k: Segment) {
    Closes(e) ==> home + [k] in u
  }

  ghost predicate EdgeAtHome(e: Entry, homes: seq<Path>, home: Path, k: Segment) {
    match e
    case Value(_) => true
    case Table(n) => n < |homes| && homes[n] == home + [k]
    case Tables(ns) => forall i :: 0 <= i < |ns| ==> ns[i] < |homes| && homes[ns[i]] == home + [k]
  }

  /** Every node has its home, and the homes and the paths that are closed are among the names in use. */
  ghost predicate AtHome(u: iset<Path>, nodes: Store, homes: seq<Path>) {
    && |homes| == |nodes|
    && (forall n :: 0 <= n < |homes| ==> homes[n] in u)
    && (forall n, k {:trigger nodes[n][k]} :: 0 <= n < |nodes| && k in nodes[n] ==>
          ClosedNamed(u, nodes[n][k], homes[n], k) && EdgeAtHome(nodes[n][k], homes, homes[n], k))
  }

  ghost predicate Reached(nodes: Store, homes: seq<Path>, n: nat) {
    n < |homes| && Resolve(nodes, 0, homes[n]) == Some(n)
  }

  lemma {:induction false} ResolveHome(u: iset<Path>, nodes: Store, homes: seq<Path>, cur: nat, p: Path)
    requires Wf(nodes) && AtHome(u, nodes, homes) && cur < |nodes| && Resolve(nodes, cur, p).Some?
    ensures Resolve(nodes, cur, p).value < |homes| && homes[Resolve(nodes, cur, p).value] == homes[cur] + p
    decreases |p|
  {
    if p == [] {
      assert homes[cur] + p == homes[cur];
    } else {
      var e := nodes[cur][p[0]];
      assert WfEntry(e, |nodes|) && EdgeAtHome(e, homes, homes[cur], p[0]);
      ResolveHome(u, nodes, homes, Through(e).value, p[1..]);
      assert homes[cur] + p == homes[cur] + [p[0]] + p[1..];
    }
  }

  lemma NewTableAtHome(u: iset<Path>, nodes: Store, homes: seq<Path>, n: nat, k: Segment)
    requires Wf(nodes) && AtHome(u, nodes, homes) && n < |nodes| && k !in nodes[n] && homes[n] + [k] in u
    ensures AtHome(u, NewTable(nodes, n, k), homes + [homes[n] + [k]])
  {
    var b, homes' := NewTable(nodes, n, k), homes + [homes[n] + [k]];
    forall m, j | 0 <= m < |b| && j in b[m]
      ensures ClosedNamed(u, b[m][j], homes'[m], j) && EdgeAtHome(b[m][j], homes', homes'[m], j)
    {
      if m < |nodes| && j in nodes[m] {
        assert EdgeAtHome(nodes[m][j], homes, homes[m], j);
        assert b[m][j] == nodes[m][j];
      }
    }
  }

  // ----- The invariant -----

  /** The home of every node; the nodes `[p]` headers opened, dotted keys went through, `[[p]]` headers appended. */
  datatype Trace = Trace(homes: seq<Path>, headed: set<nat>, dotted: set<nat>, elements: set<nat>)

  predicate MarkedChild(marks: Marks, home: Path, k: Segment, epochs: Epochs) {
    MarkedNow(marks, home + [k], epochs)
  }

  ghost predicate LiteralsClosed(nodes: Store, homes: seq<Path>, closed: Marks, epochs: Epochs)
    requires |homes| == |nodes|
  {
    forall n, k :: 0 <= n < |nodes| && k in nodes[n] && Closes(nodes[n][k]) && Reached(nodes, homes, n) ==>
      MarkedChild(closed, homes[n], k, epochs)
  }

  ghost predicate AllMarked(nodes: Store, homes: seq<Path>, which: set<nat>, marks: Marks, epochs: Epochs) {
    forall n <- which :: n < |homes| && homes[n] != [] &&
      (Reached(nodes, homes, n) ==> MarkedNow(marks, homes[n], epochs))
  }

  ghost predicate ElementsListed(homes: seq<Path>, elements: set<nat>, arrays: set<string>) {
    forall n <- elements :: n < |homes| && Encode(homes[n]) in arrays
  }

  ghost predicate Inv(u: iset<Path>, st: State, t: Trace) {
    && Valid(st) && AtHome(u, st.nodes, t.homes) && t.homes[0] == []
    && Resolve(st.nodes, 0, st.currentPath) == Some(st.current)
    && LiteralsClosed(st.nodes, t.homes, st.closed, st.epochs)
    && AllMarked(st.nodes, t.homes, t.headed, st.declared, st.epochs)
    && AllMarked(st.nodes, t.homes, t.dotted, st.dotted, st.epochs)
    && ElementsListed(t.homes, t.elements, st.arrays)
    && t.headed !! t.dotted && t.headed !! t.elements
  }

  ghost predicate KeepsMarks(u: iset<Path>, a: Marks, b: Marks, epochs: Epochs) {
    forall p: KeyPath :: p in u && MarkedNow(a, p, epochs) ==> MarkedNow(b, p, epochs)
  }

  // ----- What growth keeps of the marks -----

  /** A walk of the grown tree that ends at an old node was a walk of the old tree. */
  lemma ReachedBefore(a: Store, b: Store, homes: seq<Path>, homes': seq<Path>, n: nat)
    requires Wf(a) && a != [] && Grows(a, b) && |homes| == |a| && homes <= homes' && n < |a|
    requires Reached(b, homes', n)
    ensures Reached(a, homes, n)
  {
    ResolveGrows(a, b, 0, homes[n]);
  }

  lemma GrowthKeepsAllMarked(u: iset<Path>, a: Store, b: Store, homes: seq<Path>, homes': seq<Path>, which: set<nat>,
                             marks: Marks, marks': Marks, epochs: Epochs)
    requires Wf(a) && a != [] && Grows(a, b) && AtHome(u, a, homes) && homes <= homes'
    requires AllMarked(a, homes, which, marks, epochs) && KeepsMarks(u, marks, marks', epochs)
    ensures AllMarked(b, homes', which, marks', epochs)
  {
    forall n <- which | Reached(b, homes', n) ensures MarkedNow(marks', homes'[n], epochs) {
      ReachedBefore(a, b, homes, homes', n);
      assert MarkedNow(marks, homes[n], epochs);
    }
  }

  ghost predicate BindsAt(e: Entry, home: Path, k: Segment, full: Path, value: Literal) {
    e == Value(value) && home + [k] == full
  }

  /** The bindings `b` adds to `a`: tables, and `value` at the path `full`. */
  ghost predicate AddsTablesAnd(a: Store, b: Store, homes': seq<Path>, full: Path, value: Literal)
    requires |b| == |homes'|
  {
    forall n, k :: 0 <= n < |b| && k in b[n] ==>
      (n < |a| && k in a[n]) || b[n][k].Table? || BindsAt(b[n][k], homes'[n], k, full, value)
  }

  lemma GrowthKeepsLiteralsClosed(u: iset<Path>, a: Store, b: Store, homes: seq<Path>, homes': seq<Path>,
                                  full: Path, value: Literal, closed: Marks, closed': Marks, epochs: Epochs)
    requires Wf(a) && a != [] && Grows(a, b) && AtHome(u, a, homes) && AtHome(u, b, homes') && homes <= homes'
    requires LiteralsClosed(a, homes, closed, epochs) && KeepsMarks(u, closed, closed', epochs)
    requires AddsTablesAnd(a, b, homes', full, value)
    requires value.Scalar? || MarkedNow(closed', full, epochs)
    ensures LiteralsClosed(b, homes', closed', epochs)
  {
    forall n, k | 0 <= n < |b| && k in b[n] && Closes(b[n][k]) && Reached(b, homes', n)
      ensures MarkedChild(closed', homes'[n], k, epochs)
    {
      if n < |a| && k in a[n] {
        assert a[n][k] == b[n][k];
        ReachedBefore(a, b, homes, homes', n);
        assert ClosedNamed(u, a[n][k], homes[n], k);
        assert MarkedChild(closed, homes[n], k, epochs);
      } else {
        assert homes'[n] + [k] == full;
      }
    }
  }

  // ----- Creating tables along a path -----

  lemma AddsAfterNewTable(a: Store, n: nat, k: Segment, b: Store, homes': seq<Path>, full: Path, value: Literal)
    requires Wf(a) && n < |a| && k !in a[n] && |homes'| == |b|
    requires Grows(NewTable(a, n, k), b) && AddsTablesAnd(NewTable(a, n, k), b, homes', full, value)
    ensures AddsTablesAnd(a, b, homes', full, value)
  {
    var mid := NewTable(a, n, k);
    forall m, j | 0 <= m < |b| && j in b[m]
      ensures (m < |a| && j in a[m]) || b[m][j].Table? || BindsAt(b[m][j], homes'[m], j, full, value)
    {
      if m < |mid| && j in mid[m] {
        assert b[m][j] == mid[m][j];
      }
    }
  }

  lemma EnsureStepNamed(u: iset<Path>, home: Path, path: KeyPath)
    requires PrefixClosed(u) && home + path in u
    ensures home + [path[0]] in u && home + [path[0]] + path[1..] in u
  {
    assert home + path == home + [path[0]] + path[1..];
    PrefixIn(u, home + [path[0]], home + path);
  }

  /** The homes of the store after `EnsureTable`. */
  lemma {:induction false} EnsureAtHome(u: iset<Path>, nodes: Store, homes: seq<Path>, cur: nat, path: Path)
    returns (homes': seq<Path>)
    requires Wf(nodes) && AtHome(u, nodes, homes) && cur < |nodes| && PrefixClosed(u) && homes[cur] + path in u
    requires EnsureTable(nodes, cur, path).Ok?
    ensures AtHome(u, EnsureTable(nodes, cur, path).value.nodes, homes') && homes <= homes'
    ensures AddsTablesAnd(nodes, EnsureTable(nodes, cur, path).value.nodes, homes', [], Scalar(Unread("")))
    decreases |path|
  {
    if path == [] {
      homes' := homes;
    } else if path[0] !in nodes[cur] {
      EnsureStepNamed(u, homes[cur], path);
      var mid := NewTable(nodes, cur, path[0]);
      NewTableAtHome(u, nodes, homes, cur, path[0]);
      homes' := EnsureAtHome(u, mid, homes + [homes[cur] + [path[0]]], |nodes|, path[1..]);
      AddsAfterNewTable(nodes, cur, path[0], EnsureTable(mid, |nodes|, path[1..]).value.nodes, homes', [], Scalar(Unread("")));
    } else {
      assert WfEntry(nodes[cur][path[0]], |nodes|) && EdgeAtHome(nodes[cur][path[0]], homes, homes[cur], path[0]);
      EnsureStepNamed(u, homes[cur], path);
      homes' := EnsureAtHome(u, nodes, homes, Through(nodes[cur][path[0]]).value, path[1..]);
    }
  }

  lemma {:induction false} EnsureFromEmpty(nodes: Store, cur: nat, path: Path)
    requires Wf(nodes) && cur < |nodes| && nodes[cur] == map[]
    ensures EnsureTable(nodes, cur, path).Ok?
    decreases |path|
  {
    if path != [] {
      EnsureFromEmpty(NewTable(nodes, cur, path[0]), |nodes|, path[1..]);
    }
  }

  ghost predicate OpenBeyond(closed: Marks, epochs: Epochs, full: Path, lo: nat, hi: nat)
    requires hi <= |full|
  {
    forall i :: lo < i <= hi ==> !MarkedNow(closed, full[..i], epochs)
  }

  /** A walk whose prefixes are not closed meets no array or inline table. */
  lemma {:induction false} EnsureAvoidsLiterals(u: iset<Path>, nodes: Store, homes: seq<Path>, cur: nat, path: Path,
                                                closed: Marks, epochs: Epochs)
    requires Wf(nodes) && AtHome(u, nodes, homes) && cur < |nodes| && Reached(nodes, homes, cur)
    requires LiteralsClosed(nodes, homes, closed, epochs)
    requires OpenBeyond(closed, epochs, homes[cur] + path, |homes[cur]|, |homes[cur] + path|)
    ensures EnsureTable(nodes, cur, path) != Err(EntersLiteral)
    decreases |path|
  {
    if path != [] {
      var k, full := path[0], homes[cur] + path;
      assert full[..|homes[cur]| + 1] == homes[cur] + [k];
      if k !in nodes[cur] {
        EnsureFromEmpty(NewTable(nodes, cur, k), |nodes|, path[1..]);
      } else if Through(nodes[cur][k]).Some? {
        var next := Through(nodes[cur][k]).value;
        assert WfEntry(nodes[cur][k], |nodes|) && EdgeAtHome(nodes[cur][k], homes, homes[cur], k);
        StepReached(u, nodes, homes, cur, k);
        assert homes[next] + path[1..] == full;
        EnsureAvoidsLiterals(u, nodes, homes, next, path[1..], closed, epochs);
      } else {
        assert !Closes(nodes[cur][k]);
      }
    }
  }

  lemma StepReached(u: iset<Path>, nodes: Store, homes: seq<Path>, cur: nat, k: Segment)
    requires Wf(nodes) && AtHome(u, nodes, homes) && cur < |nodes| && Reached(nodes, homes, cur)
    requires k in nodes[cur] && Through(nodes[cur][k]).Some?
    ensures Reached(nodes, homes, Through(nodes[cur][k]).value)
    ensures homes[Through(nodes[cur][k]).value] == homes[cur] + [k]
  {
    var next := Through(nodes[cur][k]).value;
    assert WfEntry(nodes[cur][k], |nodes|) && EdgeAtHome(nodes[cur][k], homes, homes[cur], k);
    ResolveConcat(nodes, 0, homes[cur], [k]);
    assert Resolve(nodes, next, [k][1..]) == Some(next);
  }

  // ----- Assigning a key -----

  lemma {:induction false} AssignAtHome(u: iset<Path>, nodes: Store, homes: seq<Path>, cur: nat, key: KeyPath, value: Literal)
    returns (homes': seq<Path>)
    requires Wf(nodes) && AtHome(u, nodes, homes) && cur < |nodes|
    requires PrefixClosed(u) && homes[cur] + key[..|key| - 1] in u && (value.Scalar? || homes[cur] + key in u)
    requires AssignUnique(nodes, cur, key, value).Ok?
    ensures AtHome(u, AssignUnique(nodes, cur, key, value).value, homes') && homes <= homes'
    ensures AddsTablesAnd(nodes, AssignUnique(nodes, cur, key, value).value, homes', homes[cur] + key, value)
    decreases |key|
  {
    if |key| == 1 {
      assert [key[0]] == key;
      homes' := homes;
    } else {
      assert homes[cur] + key == homes[cur] + [key[0]] + key[1..];
      EnsureStepNamed(u, homes[cur], key[..|key| - 1]);
      assert key[..|key| - 1][1..] == key[1..][..|key| - 2];
      if key[0] !in nodes[cur] {
        var mid := NewTable(nodes, cur, key[0]);
        NewTableAtHome(u, nodes, homes, cur, key[0]);
        homes' := AssignAtHome(u, mid, homes + [homes[cur] + [key[0]]], |nodes|, key[1..], value);
        AddsAfterNewTable(nodes, cur, key[0], AssignUnique(mid, |nodes|, key[1..], value).value, homes',
                          homes[cur] + key, value);
      } else {
        var n := nodes[cur][key[0]].node;
        assert EdgeAtHome(nodes[cur][key[0]], homes, homes[cur], key[0]);
        homes' := AssignAtHome(u, nodes, homes, n, key[1..], value);
      }
    }
  }

  lemma {:induction false} AssignFromEmpty(nodes: Store, cur: nat, key: KeyPath, value: Literal)
    requires Wf(nodes) && cur < |nodes| && nodes[cur] == map[]
    ensures AssignUnique(nodes, cur, key, value).Ok?
    decreases |key|
  {
    if |key| > 1 {
      AssignFromEmpty(NewTable(nodes, cur, key[0]), |nodes|, key[1..], value);
    }
  }

  lemma {:induction false} AssignAvoidsLiterals(u: iset<Path>, nodes: Store, homes: seq<Path>, cur: nat, key: KeyPath,
                                                value: Literal, closed: Marks, epochs: Epochs)
    requires Wf(nodes) && AtHome(u, nodes, homes) && cur < |nodes| && Reached(nodes, homes, cur)
    requires LiteralsClosed(nodes, homes, closed, epochs)
    requires OpenBeyond(closed, epochs, homes[cur] + key, |homes[cur]|, |homes[cur] + key| - 1)
    ensures AssignUnique(nodes, cur, key, value) != Err(EntersLiteral)
    decreases |key|
  {
    if |key| > 1 {
      var k, full := key[0], homes[cur] + key;
      assert full[..|homes[cur]| + 1] == homes[cur] + [k];
      if k !in nodes[cur] {
        AssignFromEmpty(NewTable(nodes, cur, k), |nodes|, key[1..], value);
      } else if nodes[cur][k].Table? {
        StepReached(u, nodes, homes, cur, k);
        var next := nodes[cur][k].node;
        assert homes[next] + key[1..] == full;
        AssignAvoidsLiterals(u, nodes, homes, next, key[1..], value, closed, epochs);
      } else {
        assert !Closes(nodes[cur][k]);
      }
    }
  }

  // ----- The marks after each statement -----

  lemma SetMarkKeeps(u: iset<Path>, marks: Marks, path: KeyPath, epochs: Epochs)
    requires Names(u) && path in u
    ensures KeepsMarks(u, marks, marks[Encode(path) := Context(path, epochs)], epochs)
  {
    forall p: KeyPath | p in u && Encode(p) == Encode(path) ensures p == path {
    }
  }

  /** The path `r` below `v` leads to an array or inline table that is closed with `v`: through the keys of tables. */
  predicate ClosesAt(v: Literal, r: Path)
    decreases v
  {
    match v
    case Scalar(_) => false
    case InlineTable(entries) => r == [] || ClosesIn(entries, r)
    case Array(items) =>
      r == [] || exists i :: 0 <= i < |items| && items[i].InlineTable? && ClosesIn(items[i].entries, r)
  }

  predicate ClosesIn(entries: seq<Field>, r: Path)
    requires r != []
    decreases entries
  {
    exists i :: 0 <= i < |entries| && entries[i].key == r[0] && ClosesAt(entries[i].value, r[1..])
  }

  /** Every path closed with a value at `path` is among the names in use. */
  ghost predicate ClosesNamed(u: iset<Path>, path: Path, v: Literal) {
    forall r :: ClosesAt(v, r) ==> path + r in u
  }

  lemma FieldNamed(u: iset<Path>, path: Path, entries: seq<Field>, i: nat)
    requires i < |entries| && forall r: KeyPath :: ClosesIn(entries, r) ==> path + r in u
    ensures ClosesNamed(u, path + [entries[i].key], entries[i].value)
  {
    forall r | ClosesAt(entries[i].value, r) ensures path + [entries[i].key] + r in u {
      var below: KeyPath := [entries[i].key] + r;
      assert below[1..] == r && ClosesIn(entries, below);
      assert path + [entries[i].key] + r == path + below;
    }
  }

  lemma {:induction false} MarkClosedKeeps(u: iset<Path>, closed: Marks, path: KeyPath, v: Literal, epochs: Epochs)
    requires Names(u) && ClosesNamed(u, path, v)
    ensures KeepsMarks(u, closed, MarkClosed(closed, path, v, epochs), epochs)
    ensures v.Scalar? || MarkedNow(MarkClosed(closed, path, v, epochs), path, epochs)
    decreases v
  {
    hide Names, KeepsMarks;
    var closed' := closed[Encode(path) := Context(path, epochs)];
    if v.Scalar? {
      KeepsMarksReflexive(u, closed, epochs);
    } else {
      assert ClosesAt(v, []) && path + [] == path;
      SetMarkKeeps(u, closed, path, epochs);
      if v.InlineTable? {
        MarkClosedEntriesKeeps(u, closed', path, v.entries, epochs);
      } else {
        MarkClosedItemsKeeps(u, closed', path, v.items, epochs);
      }
      KeepsMarksTransitive(u, closed, closed', MarkClosed(closed, path, v, epochs), epochs);
      KeepsMark(u, closed', MarkClosed(closed, path, v, epochs), path, epochs);
    }
  }

  lemma KeepsMarksReflexive(u: iset<Path>, a: Marks, epochs: Epochs)
    ensures KeepsMarks(u, a, a, epochs)
  {
  }

  lemma KeepsMarksTransitive(u: iset<Path>, a: Marks, b: Marks, c: Marks, epochs: Epochs)
    requires KeepsMarks(u, a, b, epochs) && KeepsMarks(u, b, c, epochs)
    ensures KeepsMarks(u, a, c, epochs)
  {
  }

  lemma KeepsMark(u: iset<Path>, a: Marks, b: Marks, path: KeyPath, epochs: Epochs)
    requires KeepsMarks(u, a, b, epochs) && path in u && MarkedNow(a, path, epochs)
    ensures MarkedNow(b, path, epochs)
  {
  }

  lemma {:induction false} MarkClosedEntriesKeeps(u: iset<Path>, closed: Marks, path: KeyPath, entries: seq<Field>, epochs: Epochs)
    requires Names(u) && forall r: KeyPath :: ClosesIn(entries, r) ==> path + r in u
    ensures KeepsMarks(u, closed, MarkClosedEntries(closed, path, entries, epochs), epochs)
    decreases entries
  {
    hide Names, KeepsMarks;
    if entries == [] {
      KeepsMarksReflexive(u, closed, epochs);
    } else {
      var child, rest := path + [entries[0].key], entries[1..];
      FieldNamed(u, path, entries, 0);
      var closed' := MarkClosed(closed, child, entries[0].value, epochs);
      MarkClosedKeeps(u, closed, child, entries[0].value, epochs);
      forall r: KeyPath | ClosesIn(rest, r) ensures path + r in u {
        var i :| 0 <= i < |rest| && rest[i].key == r[0] && ClosesAt(rest[i].value, r[1..]);
        assert entries[i + 1] == rest[i];
      }
      MarkClosedEntriesKeeps(u, closed', path, rest, epochs);
      KeepsMarksTransitive(u, closed, closed', MarkClosedEntries(closed, path, entries, epochs), epochs);
    }
  }

  lemma {:induction false} MarkClosedItemsKeeps(u: iset<Path>, closed: Marks, path: KeyPath, items: seq<Literal>, epochs: Epochs)
    requires Names(u)
    requires forall i, r: KeyPath :: 0 <= i < |items| && items[i].InlineTable? && ClosesIn(items[i].entries, r) ==> path + r in u
    ensures KeepsMarks(u, closed, MarkClosedItems(closed, path, items, epochs), epochs)
    decreases items
  {
    hide Names, KeepsMarks;
    if items == [] {
      KeepsMarksReflexive(u, closed, epochs);
    } else {
      var closed' :=
        if items[0].InlineTable? then MarkClosedEntries(closed, path, items[0].entries, epochs) else closed;
      if items[0].InlineTable? {
        MarkClosedEntriesKeeps(u, closed, path, items[0].entries, epochs);
      } else {
        KeepsMarksReflexive(u, closed, epochs);
      }
      forall i, r: KeyPath | 0 <= i < |items[1..]| && items[1..][i].InlineTable? && ClosesIn(items[1..][i].entries, r)
        ensures path + r in u
      {
        assert items[1..][i] == items[i + 1];
      }
      MarkClosedItemsKeeps(u, closed', path, items[1..], epochs);
      KeepsMarksTransitive(u, closed, closed', MarkClosedItems(closed, path, items, epochs), epochs);
    }
  }

  lemma {:induction false} MarkDottedKeeps(u: iset<Path>, dotted: Marks, full: Path, i: nat, epochs: Epochs)
    requires Names(u) && i >= 1 && (i < |full| ==> full[..|full| - 1] in u)
    ensures KeepsMarks(u, dotted, MarkDotted(dotted, full, i, epochs), epochs)
    ensures forall j :: i <= j < |full| ==> MarkedNow(MarkDotted(dotted, full, i, epochs), full[..j], epochs)
    decreases |full| - i
  {
    if i < |full| {
      PrefixNamed(u, full[..i], full[..|full| - 1]);
      SetMarkKeeps(u, dotted, full[..i], epochs);
      var dotted' := dotted[Encode(full[..i]) := Context(full[..i], epochs)];
      MarkDottedKeeps(u, dotted', full, i + 1, epochs);
      assert MarkedNow(dotted', full[..i], epochs);
    }
  }

  lemma {:induction false} CheckDottedMeans(declared: Marks, closed: Marks, full: Path, i: nat, epochs: Epochs)
    requires CheckDotted(declared, closed, full, i, epochs).Ok?
    ensures forall j :: i <= j < |full| ==> Encode(full[..j]) !in declared && !MarkedNow(closed, full[..j], epochs)
    decreases |full| - i
  {
    if i < |full| {
      CheckDottedMeans(declared, closed, full, i + 1, epochs);
    }
  }

  // ----- Every accepted statement keeps the invariant -----

  /** The paths a statement makes records for, in the table at `current`, are among the names in use. */
  ghost predicate StatementNamed(u: iset<Path>, current: Path, s: Statement) {
    match s
    case Header(path) => path in u
    case ArrayHeader(path) => path in u
    case KeyValue(key, value) => current + key[..|key| - 1] in u && ClosesNamed(u, current + key, value)
  }

  lemma HeaderAvoidsLiterals(u: iset<Path>, st: State, t: Trace, path: KeyPath)
    requires Names(u) && Inv(u, st, t) && path in u
    ensures StepHeader(st, path) != Err(EntersLiteral)
  {
    if !ClosedPrefix(path, st.closed, st.epochs) {
      assert t.homes[0] + path == path;
      EnsureAvoidsLiterals(u, st.nodes, t.homes, 0, path, st.closed, st.epochs);
    }
  }

  lemma HeaderKeepsInv(u: iset<Path>, st: State, t: Trace, path: KeyPath) returns (t': Trace)
    requires Names(u) && Inv(u, st, t) && path in u && StepHeader(st, path).Ok?
    ensures var next := StepHeader(st, path).value;
      && Inv(u, next, t')
      && next.current !in t.headed + t.dotted + t.elements
      && t'.headed == t.headed + {next.current} && t'.dotted == t.dotted && t'.elements == t.elements
      && t.homes <= t'.homes
  {
    hide Names, KeepsMarks, LiteralsClosed, EnsureTable, Context, ClosedPrefix, Keeps, AddsOnlyFresh;
    var a, next := st.nodes, StepHeader(st, path).value;
    var b, cur := next.nodes, next.current;
    assert t.homes[0] + path == path;
    NamesClosed(u);
    var homes := EnsureAtHome(u, a, t.homes, 0, path);
    ResolveHome(u, b, homes, 0, path);
    assert homes[cur] == path;
    SetMarkKeeps(u, st.declared, path, st.epochs);
    KeepsMarksReflexive(u, st.closed, st.epochs);
    KeepsMarksReflexive(u, st.dotted, st.epochs);
    GrowthKeepsLiteralsClosed(u, a, b, t.homes, homes, [], Scalar(Unread("")), st.closed, st.closed, st.epochs);
    GrowthKeepsAllMarked(u, a, b, t.homes, homes, t.headed, st.declared, next.declared, st.epochs);
    GrowthKeepsAllMarked(u, a, b, t.homes, homes, t.dotted, st.dotted, st.dotted, st.epochs);
    assert cur !in t.headed + t.dotted by {
      if cur in t.headed + t.dotted {
        ReachedBefore(a, b, t.homes, homes, cur);
      }
    }
    t' := Trace(homes, t.headed + {cur}, t.dotted, t.elements);
  }

  /** The nodes a dotted key went through. */
  ghost function Touched(nodes: Store, cur: nat, key: Path): set<nat> {
    set i | 1 <= i < |key| && Resolve(nodes, cur, key[..i]).Some? :: Resolve(nodes, cur, key[..i]).value
  }

  lemma CurrentAtHome(u: iset<Path>, st: State, t: Trace)
    requires Inv(u, st, t)
    ensures t.homes[st.current] == st.currentPath && st.currentPath in u && Reached(st.nodes, t.homes, st.current)
  {
    ResolveHome(u, st.nodes, t.homes, 0, st.currentPath);
    assert t.homes[0] + st.currentPath == st.currentPath;
  }

  lemma KeyValueAvoidsLiterals(u: iset<Path>, st: State, t: Trace, key: KeyPath, value: Literal)
    requires Inv(u, st, t)
    ensures StepKeyValue(st, key, value) != Err(EntersLiteral)
  {
    var full, lo := st.currentPath + key, |st.currentPath| + 1;
    CurrentAtHome(u, st, t);
    if |key| == 1 || CheckDotted(st.declared, st.closed, full, lo, st.epochs).Ok? {
      if |key| > 1 {
        CheckDottedMeans(st.declared, st.closed, full, lo, st.epochs);
      }
      AssignAvoidsLiterals(u, st.nodes, t.homes, st.current, key, value, st.closed, st.epochs);
    }
  }

  /** The tables a dotted key goes through are marked as dotted and were not opened by a header. */
  lemma TouchedMarked(u: iset<Path>, st: State, t: Trace, key: KeyPath, value: Literal, homes: seq<Path>, n: nat)
    requires Names(u) && Inv(u, st, t) && st.currentPath + key[..|key| - 1] in u && StepKeyValue(st, key, value).Ok?
    requires t.homes <= homes && AtHome(u, StepKeyValue(st, key, value).value.nodes, homes)
    requires n in Touched(StepKeyValue(st, key, value).value.nodes, st.current, key)
    ensures n < |homes| && homes[n] != []
    ensures MarkedNow(StepKeyValue(st, key, value).value.dotted, homes[n], st.epochs) && n !in t.headed
  {
    hide LiteralsClosed, AllMarked, ElementsListed, Names, KeepsMarks;
    var b, full, lo := StepKeyValue(st, key, value).value.nodes, st.currentPath + key, |st.currentPath| + 1;
    CurrentAtHome(u, st, t);
    assert full[..|full| - 1] == st.currentPath + key[..|key| - 1];
    var i :| 1 <= i < |key| && Resolve(b, st.current, key[..i]) == Some(n);
    ResolveHome(u, b, homes, st.current, key[..i]);
    assert homes[n] == full[..|st.currentPath| + i];
    MarkDottedKeeps(u, st.dotted, full, lo, st.epochs);
    if n in t.headed {
      CheckDottedMeans(st.declared, st.closed, full, lo, st.epochs);
      TouchedNotHeaded(u, st, t, key, i, b, homes, n);
    }
  }

  lemma TouchedNotHeaded(u: iset<Path>, st: State, t: Trace, key: KeyPath, i: nat, b: Store, homes: seq<Path>, n: nat)
    requires Inv(u, st, t) && Grows(st.nodes, b) && t.homes <= homes && i <= |key| && Resolve(b, st.current, key[..i]) == Some(n)
    requires n < |homes| && homes[n] == st.currentPath + key[..i]
    requires !MarkedNow(st.declared, homes[n], st.epochs)
    ensures n !in t.headed
  {
    hide MarkedNow;
    if n in t.headed {
      ResolveGrows(st.nodes, b, 0, st.currentPath);
      ResolveConcat(b, 0, st.currentPath, key[..i]);
      ReachedBefore(st.nodes, b, t.homes, homes, n);
    }
  }

  lemma KeyValueMarks(u: iset<Path>, st: State, key: KeyPath, value: Literal, next: State)
    requires Names(u) && StatementNamed(u, st.currentPath, KeyValue(key, value))
    requires Valid(st) && StepKeyValue(st, key, value) == Ok(next)
    ensures KeepsMarks(u, st.closed, next.closed, st.epochs) && KeepsMarks(u, st.dotted, next.dotted, st.epochs)
    ensures value.Scalar? || MarkedNow(next.closed, st.currentPath + key, st.epochs)
    ensures next == st.(nodes := next.nodes, closed := next.closed, dotted := next.dotted)
    ensures AssignUnique(st.nodes, st.current, key, value) == Ok(next.nodes)
  {
    MarkClosedKeeps(u, st.closed, st.currentPath + key, value, st.epochs);
    KeepsMarksReflexive(u, st.dotted, st.epochs);
    var full := st.currentPath + key;
    assert full[..|full| - 1] == st.currentPath + key[..|key| - 1];
    MarkDottedKeeps(u, st.dotted, st.currentPath + key, |st.currentPath| + 1, st.epochs);
  }

  lemma GrowthKeepsInv(u: iset<Path>, st: State, t: Trace, next: State, homes: seq<Path>, full: Path, value: Literal)
    requires Inv(u, st, t) && next == st.(nodes := next.nodes, closed := next.closed, dotted := next.dotted)
    requires Grows(st.nodes, next.nodes) && AtHome(u, next.nodes, homes) && t.homes <= homes
    requires AddsTablesAnd(st.nodes, next.nodes, homes, full, value)
    requires KeepsMarks(u, st.closed, next.closed, st.epochs) && KeepsMarks(u, st.dotted, next.dotted, st.epochs)
    requires value.Scalar? || MarkedNow(next.closed, full, st.epochs)
    ensures Inv(u, next, t.(homes := homes))
  {
    var a, b, ep := st.nodes, next.nodes, st.epochs;
    GrowthKeepsLiteralsClosed(u, a, b, t.homes, homes, full, value, st.closed, next.closed, ep);
    GrowthKeepsAllMarked(u, a, b, t.homes, homes, t.headed, st.declared, st.declared, ep);
    GrowthKeepsAllMarked(u, a, b, t.homes, homes, t.dotted, st.dotted, next.dotted, ep);
    ResolveGrows(a, b, 0, st.currentPath);
  }

  lemma KeyValueKeepsInv(u: iset<Path>, st: State, t: Trace, key: KeyPath, value: Literal, next: State) returns (t': Trace)
    requires Names(u) && Inv(u, st, t) && StatementNamed(u, st.currentPath, KeyValue(key, value))
    requires StepKeyValue(st, key, value) == Ok(next)
    ensures Inv(u, next, t')
    ensures t'.headed == t.headed && t'.elements == t.elements && t.homes <= t'.homes
    ensures t'.dotted == t.dotted + Touched(next.nodes, next.current, key)
  {
    CurrentAtHome(u, st, t);
    assert value.Scalar? || st.currentPath + key in u by {
      assert value.Scalar? || ClosesAt(value, []);
      assert st.currentPath + key + [] == st.currentPath + key;
    }
    KeyValueMarks(u, st, key, value, next);
    var homes := AssignAtHome(u, st.nodes, t.homes, st.current, key, value);
    GrowthKeepsInv(u, st, t, next, homes, st.currentPath + key, value);
    var touched := Touched(next.nodes, st.current, key);
    forall n <- touched
      ensures n < |homes| && homes[n] != [] && MarkedNow(next.dotted, homes[n], st.epochs) && n !in t.headed
    {
      TouchedMarked(u, st, t, key, value, homes, n);
    }
    t' := Trace(homes, t.headed, t.dotted + touched, t.elements);
  }

  // ----- Array-table headers -----

  lemma {:induction false} ContextIgnores(u: iset<Path>, p: Path, i: nat, q: KeyPath, epochs: Epochs)
    requires Names(u) && i <= |p| && p in u && q in u
    requires forall j :: 0 <= j <= i ==> p[..j] != q
    ensures ContextFrom(p, i, Bump(epochs, Encode(q))) == ContextFrom(p, i, epochs)
    decreases i
  {
    if i > 0 {
      PrefixNamed(u, p[..i], p);
      ContextIgnores(u, p, i - 1, q, epochs);
    }
  }

  lemma MarkedNowIgnores(u: iset<Path>, marks: Marks, p: Path, q: KeyPath, epochs: Epochs)
    requires Names(u) && p in u && q in u && !(q <= p)
    ensures MarkedNow(marks, p, Bump(epochs, Encode(q))) == MarkedNow(marks, p, epochs)
  {
    forall j | 0 <= j <= |p| ensures p[..j] != q {
      assert p[..j] <= p;
    }
    ContextIgnores(u, p, |p|, q, epochs);
  }

  /** Under an open path, the tables an array-table header creates on the way keep the marks. */
  lemma ParentKeepsInv(u: iset<Path>, st: State, t: Trace, path: KeyPath) returns (homes: seq<Path>)
    requires Names(u) && Inv(u, st, t) && path in u
    requires EnsureTable(st.nodes, 0, path[..|path| - 1]).Ok?
    ensures var p := EnsureTable(st.nodes, 0, path[..|path| - 1]).value;
      && AtHome(u, p.nodes, homes) && t.homes <= homes
      && homes[p.at] == path[..|path| - 1] && Reached(p.nodes, homes, p.at)
      && LiteralsClosed(p.nodes, homes, st.closed, st.epochs)
      && AllMarked(p.nodes, homes, t.headed, st.declared, st.epochs)
      && AllMarked(p.nodes, homes, t.dotted, st.dotted, st.epochs)
      && (forall n, k :: 0 <= n < |p.nodes| && k in p.nodes[n] && Closes(p.nodes[n][k]) ==> n < |st.nodes|)
  {
    hide Names, AllMarked, KeepsMarks, MarkedNow;
    var a, front := st.nodes, path[..|path| - 1];
    var p := EnsureTable(a, 0, front).value;
    assert t.homes[0] + front == front;
    NamesClosed(u);
    PrefixIn(u, front, path);
    KeepsMarksReflexive(u, st.closed, st.epochs);
    KeepsMarksReflexive(u, st.declared, st.epochs);
    KeepsMarksReflexive(u, st.dotted, st.epochs);
    homes := EnsureAtHome(u, a, t.homes, 0, front);
    ResolveHome(u, p.nodes, homes, 0, front);
    assert homes[p.at] == front;
    GrowthKeepsLiteralsClosed(u, a, p.nodes, t.homes, homes, [], Scalar(Unread("")), st.closed, st.closed, st.epochs);
    GrowthKeepsAllMarked(u, a, p.nodes, t.homes, homes, t.headed, st.declared, st.declared, st.epochs);
    GrowthKeepsAllMarked(u, a, p.nodes, t.homes, homes, t.dotted, st.dotted, st.dotted, st.epochs);
  }

  lemma AppendAvoidsLiterals(u: iset<Path>, st: State, t: Trace, path: KeyPath)
    requires Names(u) && Inv(u, st, t) && path in u
    ensures StepArrayHeader(st, path) != Err(EntersLiteral)
  {
    hide Names, MarkedNow, AllMarked;
    var front, name := path[..|path| - 1], path[|path| - 1];
    if !ClosedPrefix(path, st.closed, st.epochs) {
      assert t.homes[0] + front == front;
      forall i | 0 < i <= |front| ensures !MarkedNow(st.closed, front[..i], st.epochs) {
        assert front[..i] == path[..i];
      }
      EnsureAvoidsLiterals(u, st.nodes, t.homes, 0, front, st.closed, st.epochs);
      if EnsureTable(st.nodes, 0, front).Ok? {
        var parent := EnsureTable(st.nodes, 0, front).value;
        var homes := ParentKeepsInv(u, st, t, path);
        assert homes[parent.at] + [name] == path && path[..|path|] == path;
        assert name in parent.nodes[parent.at] && Closes(parent.nodes[parent.at][name]) ==>
          MarkedChild(st.closed, homes[parent.at], name, st.epochs);
      }
    }
  }

  /** Appending a table at `q` moves no walk that does not pass `q`. */
  lemma {:induction false} ResolveRebound(u: iset<Path>, nodes: Store, homes: seq<Path>, x: nat, name: Segment, e: Entry,
                                          cur: nat, p: Path)
    requires Wf(nodes) && AtHome(u, nodes, homes) && x < |nodes| && cur < |nodes|
    requires !(homes[x] + [name] <= homes[cur] + p)
    ensures Resolve(Bind(nodes, x, name, e) + [map[]], cur, p) == Resolve(nodes, cur, p)
    decreases |p|
  {
    if p != [] {
      assert homes[cur] + p == homes[cur] + [p[0]] + p[1..];
      if p[0] in nodes[cur] && Through(nodes[cur][p[0]]).Some? {
        var next := Through(nodes[cur][p[0]]).value;
        assert WfEntry(nodes[cur][p[0]], |nodes|);
        assert homes[next] + p[1..] == homes[cur] + p;
        ResolveRebound(u, nodes, homes, x, name, e, next, p[1..]);
      }
    }
  }

  /** A table about to be appended at `path`, in the array of tables `before` bound by `name` in node `at`. */
  ghost predicate Appends(u: iset<Path>, nodes: Store, homes: seq<Path>, at: nat, name: Segment, before: seq<nat>, path: Path) {
    && Wf(nodes) && nodes != [] && AtHome(u, nodes, homes) && homes[0] == []
    && at < |nodes| && PrefixClosed(u) && path in u && path == homes[at] + [name] && Reached(nodes, homes, at)
    && (if name in nodes[at] then nodes[at][name] == Tables(before) else before == [])
  }

  lemma AppendAtHome(u: iset<Path>, nodes: Store, homes: seq<Path>, at: nat, name: Segment, before: seq<nat>, path: Path)
    requires Appends(u, nodes, homes, at, name, before, path)
    ensures AtHome(u, AppendTable(nodes, at, name, before), homes + [path]) && Wf(AppendTable(nodes, at, name, before))
  {
    var b, homes' := AppendTable(nodes, at, name, before), homes + [path];
    assert path[|path| - 1] == name;
    forall n, k | 0 <= n < |b| && k in b[n]
      ensures ClosedNamed(u, b[n][k], homes'[n], k) && EdgeAtHome(b[n][k], homes', homes'[n], k) && WfEntry(b[n][k], |b|)
    {
      if n < |nodes| && k in nodes[n] {
        assert EdgeAtHome(nodes[n][k], homes, homes[n], k) && WfEntry(nodes[n][k], |nodes|);
      }
    }
  }

  lemma AppendResolves(u: iset<Path>, nodes: Store, homes: seq<Path>, at: nat, name: Segment, before: seq<nat>, path: Path)
    requires Appends(u, nodes, homes, at, name, before, path)
    ensures Resolve(AppendTable(nodes, at, name, before), 0, path) == Some(|nodes|)
  {
    var b := AppendTable(nodes, at, name, before);
    ResolveRebound(u, nodes, homes, at, name, Tables(before + [|nodes|]), 0, homes[at]);
    ResolveConcat(b, 0, homes[at], [name]);
    assert Resolve(b, |nodes|, [name][1..]) == Some(|nodes|);
  }

  /** An old node that is still reached is not at or under the path of the appended table. */
  lemma AppendCutsOff(u: iset<Path>, nodes: Store, homes: seq<Path>, at: nat, name: Segment, before: seq<nat>, path: Path, n: nat)
    requires Appends(u, nodes, homes, at, name, before, path) && n < |nodes|
    requires Resolve(AppendTable(nodes, at, name, before), 0, homes[n]) == Some(n)
    ensures !(path <= homes[n]) && Reached(nodes, homes, n)
  {
    var b := AppendTable(nodes, at, name, before);
    if path <= homes[n] {
      assert homes[n] == path + homes[n][|path|..];
      AppendResolves(u, nodes, homes, at, name, before, path);
      ResolveConcat(b, 0, path, homes[n][|path|..]);
      assert false;
    }
    assert homes[0] + homes[n] == homes[n];
    ResolveRebound(u, nodes, homes, at, name, Tables(before + [|nodes|]), 0, homes[n]);
  }

  lemma AppendKeepsAllMarked(u: iset<Path>, nodes: Store, homes: seq<Path>, at: nat, name: Segment, before: seq<nat>, path: KeyPath,
                             which: set<nat>, marks: Marks, epochs: Epochs)
    requires Names(u) && Appends(u, nodes, homes, at, name, before, path) && AllMarked(nodes, homes, which, marks, epochs)
    ensures AllMarked(AppendTable(nodes, at, name, before), homes + [path], which, marks, Bump(epochs, Encode(path)))
  {
    var b, homes' := AppendTable(nodes, at, name, before), homes + [path];
    forall n <- which | Reached(b, homes', n) ensures MarkedNow(marks, homes'[n], Bump(epochs, Encode(path))) {
      AppendCutsOff(u, nodes, homes, at, name, before, path, n);
      MarkedNowIgnores(u, marks, homes[n], path, epochs);
    }
  }

  lemma PrefixOfChild(p: Path, name: Segment, q: Path, k: Segment)
    ensures p + [name] <= q + [k] ==> p + [name] <= q || (p == q && name == k)
  {
    var a, b := p + [name], q + [k];
    assert a[..|p|] == p && a[|p|] == name && b[..|q|] == q && b[|q|] == k;
    if |a| <= |q| {
      assert b[..|a|] == q[..|a|];
    }
  }

  lemma AppendKeepsLiteralsClosed(u: iset<Path>, nodes: Store, homes: seq<Path>, at: nat, name: Segment, before: seq<nat>,
                                  path: KeyPath, closed: Marks, epochs: Epochs)
    requires Names(u) && Appends(u, nodes, homes, at, name, before, path) && LiteralsClosed(nodes, homes, closed, epochs)
    ensures LiteralsClosed(AppendTable(nodes, at, name, before), homes + [path], closed, Bump(epochs, Encode(path)))
  {
    var b, homes' := AppendTable(nodes, at, name, before), homes + [path];
    forall n, k | 0 <= n < |b| && k in b[n] && Closes(b[n][k]) && Reached(b, homes', n)
      ensures MarkedChild(closed, homes'[n], k, Bump(epochs, Encode(path)))
    {
      assert b[n][k] == nodes[n][k];
      AppendCutsOff(u, nodes, homes, at, name, before, path, n);
      assert MarkedChild(closed, homes[n], k, epochs);
      var child := homes[n] + [k];
      PrefixOfChild(homes[at], name, homes[n], k);
      assert ClosedNamed(u, nodes[n][k], homes[n], k);
      MarkedNowIgnores(u, closed, child, path, epochs);
    }
  }

  /** An accepted array-table header appends to a store the tables on its way have been added to. */
  lemma ArrayHeaderAppends(u: iset<Path>, st: State, t: Trace, path: KeyPath, next: State)
    returns (p: Place, homes: seq<Path>, before: seq<nat>)
    requires Names(u) && Inv(u, st, t) && path in u && StepArrayHeader(st, path) == Ok(next)
    ensures Grows(st.nodes, p.nodes) && t.homes <= homes
    ensures Appends(u, p.nodes, homes, p.at, path[|path| - 1], before, path)
    ensures LiteralsClosed(p.nodes, homes, st.closed, st.epochs)
    ensures AllMarked(p.nodes, homes, t.headed, st.declared, st.epochs)
    ensures AllMarked(p.nodes, homes, t.dotted, st.dotted, st.epochs)
    ensures next == st.(nodes := AppendTable(p.nodes, p.at, path[|path| - 1], before), current := |p.nodes|,
                        currentPath := path, arrays := st.arrays + {Encode(path)},
                        epochs := Bump(st.epochs, Encode(path)))
  {
    hide MarkedNow, ClosedPrefix, Encode, Context, AppendTable, LiteralsClosed, AllMarked, Keeps, AddsOnlyFresh;
    var name := path[|path| - 1];
    NamesClosed(u);
    p := EnsureTable(st.nodes, 0, path[..|path| - 1]).value;
    homes := ParentKeepsInv(u, st, t, path);
    before := if name in p.nodes[p.at] then p.nodes[p.at][name].elements else [];
  }

  lemma ArrayHeaderKeepsInv(u: iset<Path>, st: State, t: Trace, path: KeyPath, next: State) returns (t': Trace)
    requires Names(u) && Inv(u, st, t) && path in u && StepArrayHeader(st, path) == Ok(next)
    ensures Inv(u, next, t')
    ensures t'.headed == t.headed && t'.dotted == t.dotted && t.homes <= t'.homes
    ensures t'.elements == t.elements + {next.current}
  {
    hide StepArrayHeader;
    var name := path[|path| - 1];
    var p, homes, before := ArrayHeaderAppends(u, st, t, path, next);
    AppendAtHome(u, p.nodes, homes, p.at, name, before, path);
    AppendResolves(u, p.nodes, homes, p.at, name, before, path);
    AppendKeepsLiteralsClosed(u, p.nodes, homes, p.at, name, before, path, st.closed, st.epochs);
    AppendKeepsAllMarked(u, p.nodes, homes, p.at, name, before, path, t.headed, st.declared, st.epochs);
    AppendKeepsAllMarked(u, p.nodes, homes, p.at, name, before, path, t.dotted, st.dotted, st.epochs);
    t' := Trace(homes + [path], t.headed, t.dotted, t.elements + {next.current});
  }
}
