/**
 When two headers open one table, whatever the keys. The tree is made of segments, not of records, so every table has one
 path in every accepted document, collisions or not; what a collision does is let such a document be accepted.
 */
module TableIdentity {
  import opened Results
  import opened Paths
  import opened TableMachine
  import opened TableSoundness
  import opened TableTheorems

  /** Every path there is; no law about records is asked of it. */
  ghost const AnyPath: iset<Path> := iset p: Path | true

  /** The tree of a state: every node has its home, and the current table is where the current path leads. */
  ghost predicate Tree(st: State, homes: seq<Path>) {
    && Valid(st) && AtHome(AnyPath, st.nodes, homes) && homes[0] == []
    && Resolve(st.nodes, 0, st.currentPath) == Some(st.current)
  }

  /** The nodes reached along their homes stay reached but for those an array-table header cuts off. */
  ghost predicate Cuts(a: Store, homes: seq<Path>, b: Store, homes': seq<Path>, s: Statement) {
    && homes <= homes'
    && forall n: nat :: n < |homes| ==>
         (Reached(b, homes', n) <==> Reached(a, homes, n) && !(s.ArrayHeader? && s.path <= homes[n]))
  }

  lemma GrowthCutsNothing(a: Store, b: Store, homes: seq<Path>, homes': seq<Path>)
    requires Wf(a) && a != [] && Grows(a, b) && |homes| == |a| && homes <= homes'
    ensures forall n: nat :: n < |homes| ==> (Reached(b, homes', n) <==> Reached(a, homes, n))
  {
    forall n: nat | n < |homes| ensures Reached(b, homes', n) <==> Reached(a, homes, n) {
      ResolveGrows(a, b, 0, homes[n]);
    }
  }

  lemma HeaderTree(st: State, homes: seq<Path>, path: KeyPath, next: State) returns (homes': seq<Path>)
    requires Tree(st, homes) && StepHeader(st, path) == Ok(next)
    ensures Tree(next, homes') && Cuts(st.nodes, homes, next.nodes, homes', Header(path))
  {
    hide MarkedNow, ClosedPrefix, Encode, Context;
    assert homes[0] + path == path;
    homes' := EnsureAtHome(AnyPath, st.nodes, homes, 0, path);
    GrowthCutsNothing(st.nodes, next.nodes, homes, homes');
  }

  lemma KeyValueTree(st: State, homes: seq<Path>, key: KeyPath, value: Literal, next: State) returns (homes': seq<Path>)
    requires Tree(st, homes) && StepKeyValue(st, key, value) == Ok(next)
    ensures Tree(next, homes') && Cuts(st.nodes, homes, next.nodes, homes', KeyValue(key, value))
  {
    hide MarkClosed, MarkDotted, CheckDotted, Encode;
    assert AssignUnique(st.nodes, st.current, key, value) == Ok(next.nodes);
    homes' := AssignAtHome(AnyPath, st.nodes, homes, st.current, key, value);
    GrowthCutsNothing(st.nodes, next.nodes, homes, homes');
    ResolveGrows(st.nodes, next.nodes, 0, st.currentPath);
  }

  /** An accepted array-table header appends to the tree with the tables on its way added. */
  lemma HeaderAppends(st: State, homes: seq<Path>, path: KeyPath, next: State)
    returns (p: Place, grown: seq<Path>, before: seq<nat>)
    requires Tree(st, homes) && StepArrayHeader(st, path) == Ok(next)
    ensures Grows(st.nodes, p.nodes) && homes <= grown
    ensures Appends(AnyPath, p.nodes, grown, p.at, path[|path| - 1], before, path)
    ensures next.nodes == AppendTable(p.nodes, p.at, path[|path| - 1], before)
    ensures next.current == |p.nodes| && next.currentPath == path
  {
    hide MarkedNow, ClosedPrefix, Encode, Context, AppendTable, Keeps, AddsOnlyFresh;
    var front, name := path[..|path| - 1], path[|path| - 1];
    p := EnsureTable(st.nodes, 0, front).value;
    assert homes[0] + front == front;
    grown := EnsureAtHome(AnyPath, st.nodes, homes, 0, front);
    before := if name in p.nodes[p.at] then p.nodes[p.at][name].elements else [];
    assert Wf(p.nodes) by {
      GrownIsWf(st.nodes, p.nodes);
    }
    ResolveHome(AnyPath, p.nodes, grown, 0, front);
    assert grown[p.at] + [name] == path;
  }

  lemma GrownIsWf(a: Store, b: Store)
    requires Grows(a, b)
    ensures Wf(b)
  {
  }

  lemma ArrayHeaderTree(st: State, homes: seq<Path>, path: KeyPath, next: State) returns (homes': seq<Path>)
    requires Tree(st, homes) && StepArrayHeader(st, path) == Ok(next)
    ensures Tree(next, homes') && Cuts(st.nodes, homes, next.nodes, homes', ArrayHeader(path))
  {
    hide StepArrayHeader, Reached, AppendTable, Grows;
    var p, grown, before := HeaderAppends(st, homes, path, next);
    var name := path[|path| - 1];
    GrowthCutsNothing(st.nodes, p.nodes, homes, grown);
    AppendAtHome(AnyPath, p.nodes, grown, p.at, name, before, path);
    AppendResolves(AnyPath, p.nodes, grown, p.at, name, before, path);
    AppendCuts(p.nodes, grown, p.at, name, before, path);
    homes' := grown + [path];
    assert forall n :: 0 <= n < |homes| ==> grown[n] == homes[n];
  }

  lemma AppendCuts(nodes: Store, homes: seq<Path>, at: nat, name: Segment, before: seq<nat>, path: KeyPath)
    requires Appends(AnyPath, nodes, homes, at, name, before, path)
    ensures var b := AppendTable(nodes, at, name, before);
      forall n: nat :: n < |homes| ==> (Reached(b, homes + [path], n) <==> Reached(nodes, homes, n) && !(path <= homes[n]))
  {
    hide AppendTable, AtHome;
    var b := AppendTable(nodes, at, name, before);
    forall n: nat | n < |homes| ensures Reached(b, homes + [path], n) <==> Reached(nodes, homes, n) && !(path <= homes[n]) {
      if Reached(b, homes + [path], n) {
        CutOff(nodes, homes, at, name, before, path, n);
      } else if !(path <= homes[n]) {
        AppendLeaves(AnyPath, nodes, homes, at, name, before, path, homes[n]);
      }
    }
  }

  lemma CutOff(nodes: Store, homes: seq<Path>, at: nat, name: Segment, before: seq<nat>, path: KeyPath, n: nat)
    requires Appends(AnyPath, nodes, homes, at, name, before, path) && n < |homes|
    requires Reached(AppendTable(nodes, at, name, before), homes + [path], n)
    ensures !(path <= homes[n]) && Reached(nodes, homes, n)
  {
    AppendCutsOff(AnyPath, nodes, homes, at, name, before, path, n);
  }

  lemma StepTree(st: State, homes: seq<Path>, s: Statement, next: State) returns (homes': seq<Path>)
    requires Tree(st, homes) && Step(st, s) == Ok(next)
    ensures Tree(next, homes') && Cuts(st.nodes, homes, next.nodes, homes', s)
  {
    hide Tree, Cuts, StepHeader, StepArrayHeader, StepKeyValue;
    TreeValid(st, homes);
    match s
    case Header(path) => homes' := HeaderTree(st, homes, path, next);
    case ArrayHeader(path) => homes' := ArrayHeaderTree(st, homes, path, next);
    case KeyValue(key, value) => homes' := KeyValueTree(st, homes, key, value, next);
  }

  lemma TreeValid(st: State, homes: seq<Path>)
    requires Tree(st, homes)
    ensures Valid(st) && |homes| == |st.nodes|
  {
  }

  lemma {:induction false} TreeAt(statements: seq<Statement>, n: nat) returns (homes: seq<Path>)
    requires Run(statements).Ok? && n <= |statements|
    ensures Tree(StateAt(statements, n), homes)
  {
    hide Step, Tree;
    if n == 0 {
      StartState(statements);
      homes := [[]];
      InitialTree();
    } else {
      var before := TreeAt(statements, n - 1);
      StepAt(statements, n - 1);
      homes := StepTree(StateAt(statements, n - 1), before, statements[n - 1], StateAt(statements, n));
    }
  }

  lemma InitialTree()
    ensures Tree(Initial, [[]])
  {
  }

  /** A `[[q]]` with `q` a prefix of `p` stands among the statements from `i` up to `j`. */
  predicate CutBetween(statements: seq<Statement>, i: nat, j: nat, p: Path)
    requires i <= j <= |statements|
  {
    exists m :: i <= m < j && statements[m].ArrayHeader? && statements[m].path <= p
  }

  /** A table reached along its path stays so until a `[[q]]` cuts it off, and is cut off for good. */
  lemma {:induction false} ReachedUntilCut(statements: seq<Statement>, i: nat, j: nat, homes: seq<Path>, n: nat)
    returns (homes': seq<Path>)
    requires Run(statements).Ok? && i <= j <= |statements| && Tree(StateAt(statements, i), homes)
    requires n < |homes| && Reached(StateAt(statements, i).nodes, homes, n)
    ensures Tree(StateAt(statements, j), homes') && homes <= homes'
    ensures Reached(StateAt(statements, j).nodes, homes', n) <==> !CutBetween(statements, i, j, homes[n])
    decreases j
  {
    hide Step, Tree, Reached;
    if i == j {
      homes' := homes;
    } else {
      var before := ReachedUntilCut(statements, i, j - 1, homes, n);
      StepAt(statements, j - 1);
      homes' := StepTree(StateAt(statements, j - 1), before, statements[j - 1], StateAt(statements, j));
      CutsOne(StateAt(statements, j - 1).nodes, before, StateAt(statements, j).nodes, homes', statements[j - 1], n);
    }
  }

  lemma CutsOne(a: Store, homes: seq<Path>, b: Store, homes': seq<Path>, s: Statement, n: nat)
    requires Cuts(a, homes, b, homes', s) && n < |homes|
    ensures homes <= homes'
    ensures Reached(b, homes', n) <==> Reached(a, homes, n) && !(s.ArrayHeader? && s.path <= homes[n])
  {
  }

  /** The current table is reached along the current path, which is its home. */
  lemma CurrentHome(st: State, homes: seq<Path>)
    requires Tree(st, homes)
    ensures st.current < |homes| && homes[st.current] == st.currentPath && Reached(st.nodes, homes, st.current)
  {
    ResolveHome(AnyPath, st.nodes, homes, 0, st.currentPath);
    assert homes[0] + st.currentPath == st.currentPath;
  }

  /**
   In any accepted document, whatever its keys, two headers open the same table exactly when they have the same path and
   no `[[q]]` for a prefix `q` of it stands between them.
   */
  lemma SameTableIff(statements: seq<Statement>, i: nat, j: nat)
    requires Run(statements).Ok? && i < j < |statements| && statements[i].Header? && statements[j].Header?
    ensures TableAt(statements, i) == TableAt(statements, j) <==>
              statements[i].path == statements[j].path && !CutBetween(statements, i, j, statements[i].path)
  {
    hide Tree, Step, Reached;
    var homes := TreeAt(statements, i + 1);
    CurrentHome(StateAt(statements, i + 1), homes);
    CurrentAt(statements, i + 1);
    CurrentAt(statements, j + 1);
    var n := TableAt(statements, i);
    var later := ReachedUntilCut(statements, i + 1, j + 1, homes, n);
    CurrentHome(StateAt(statements, j + 1), later);
    var m := TableAt(statements, j);
    assert later[n] == homes[n] == statements[i].path && later[m] == statements[j].path;
    assert CutBetween(statements, i + 1, j + 1, homes[n]) <==> CutBetween(statements, i, j, homes[n]);
    if statements[i].path == statements[j].path && Reached(StateAt(statements, j + 1).nodes, later, n) {
      SameHome(StateAt(statements, j + 1).nodes, later, n, m);
    }
  }

  lemma SameHome(nodes: Store, homes: seq<Path>, n: nat, m: nat)
    requires Reached(nodes, homes, n) && Reached(nodes, homes, m) && homes[n] == homes[m]
    ensures n == m
  {
  }
}
