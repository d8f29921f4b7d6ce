/** What every accepted document keeps, stated over whole runs of the table-definition machine. */
module TableTheorems {
  import opened Results
  import opened Paths
  import opened TableMachine
  import opened TableSoundness

  // ----- The paths a document makes records for -----

  /** The path of the table that is current before statement `n`. */
  function CurrentPath(statements: seq<Statement>, n: nat): Path
    requires n <= |statements|
  {
    if n == 0 then []
    else if statements[n - 1].KeyValue? then CurrentPath(statements, n - 1)
    else statements[n - 1].path
  }

  /** The longest paths a statement makes records for: its header, the tables of its dotted key, what it closes. */
  predicate Uses(current: Path, s: Statement, b: Path) {
    match s
    case Header(path) => b == path
    case ArrayHeader(path) => b == path
    case KeyValue(key, value) =>
      b == current + key[..|key| - 1] || (current + key <= b && ClosesAt(value, b[|current + key|..]))
  }

  ghost predicate UsedIn(statements: seq<Statement>, p: Path) {
    p == [] || exists i: nat, b: Path :: i < |statements| && Uses(CurrentPath(statements, i), statements[i], b) && p <= b
  }

  /** Every path a document makes records for, with its prefixes. */
  ghost function Used(statements: seq<Statement>): iset<Path> {
    iset p: Path | UsedIn(statements, p)
  }

  /** No two paths the document makes records for share one. */
  ghost predicate CollisionFree(statements: seq<Statement>) {
    Apart(Used(statements))
  }

  ghost predicate DocumentNamed(u: iset<Path>, statements: seq<Statement>) {
    Names(u) && forall i :: 0 <= i < |statements| ==> StatementNamed(u, CurrentPath(statements, i), statements[i])
  }

  lemma UsedNamed(statements: seq<Statement>)
    requires CollisionFree(statements)
    ensures DocumentNamed(Used(statements), statements)
  {
    var u := Used(statements);
    forall p, n | p in u && 0 <= n <= |p| ensures p[..n] in u {
      if p != [] {
        var i: nat, b: Path :|
          i < |statements| && Uses(CurrentPath(statements, i), statements[i], b) && p <= b;
        assert p[..n] <= b;
      }
    }
    forall i | 0 <= i < |statements| ensures StatementNamed(u, CurrentPath(statements, i), statements[i]) {
      var current, s := CurrentPath(statements, i), statements[i];
      if s.KeyValue? {
        assert Uses(current, s, current + s.key[..|s.key| - 1]);
        forall r | ClosesAt(s.value, r) ensures current + s.key + r in u {
          assert Uses(current, s, current + s.key + r);
        }
      } else {
        assert Uses(current, s, s.path);
      }
    }
  }

  predicate NulFreeKeys(v: Literal) {
    match v
    case Scalar(_) => true
    case Array(items) => forall i :: 0 <= i < |items| ==> NulFreeKeys(items[i])
    case InlineTable(entries) =>
      forall i :: 0 <= i < |entries| ==> NulFreeText(entries[i].key) && NulFreeKeys(entries[i].value)
  }

  predicate NulFreeStatement(s: Statement) {
    match s
    case Header(path) => NulFree(path)
    case ArrayHeader(path) => NulFree(path)
    case KeyValue(key, value) => NulFree(key) && NulFreeKeys(value)
  }

  predicate NulFreeDocument(statements: seq<Statement>) {
    forall i :: 0 <= i < |statements| ==> NulFreeStatement(statements[i])
  }

  lemma {:induction false} ClosedNulFree(v: Literal, r: Path)
    requires NulFreeKeys(v) && ClosesAt(v, r)
    ensures NulFree(r)
    decreases v, 1
  {
    if r != [] {
      match v
      case InlineTable(entries) => FieldNulFree(entries, r);
      case Array(items) =>
        var i :| 0 <= i < |items| && items[i].InlineTable? && ClosesIn(items[i].entries, r);
        assert NulFreeKeys(items[i]);
        FieldNulFree(items[i].entries, r);
    }
  }

  lemma FieldNulFree(entries: seq<Field>, r: KeyPath)
    requires forall i :: 0 <= i < |entries| ==> NulFreeText(entries[i].key) && NulFreeKeys(entries[i].value)
    requires ClosesIn(entries, r)
    ensures NulFree(r)
    decreases entries, 0
  {
    var i :| 0 <= i < |entries| && entries[i].key == r[0] && ClosesAt(entries[i].value, r[1..]);
    ClosedNulFree(entries[i].value, r[1..]);
    assert r == [r[0]] + r[1..];
  }

  lemma {:induction false} CurrentNulFree(statements: seq<Statement>, n: nat)
    requires NulFreeDocument(statements) && n <= |statements|
    ensures NulFree(CurrentPath(statements, n))
  {
    if n > 0 {
      assert NulFreeStatement(statements[n - 1]);
      CurrentNulFree(statements, n - 1);
    }
  }

  /** Documents without NUL in their keys have no collisions. */
  lemma NulFreeIsCollisionFree(statements: seq<Statement>)
    requires NulFreeDocument(statements)
    ensures CollisionFree(statements)
  {
    NulFreeNames();
    forall p | p in Used(statements) ensures NulFree(p) {
      if p != [] {
        var i: nat, b: Path :|
          i < |statements| && Uses(CurrentPath(statements, i), statements[i], b) && p <= b;
        var current, s := CurrentPath(statements, i), statements[i];
        CurrentNulFree(statements, i);
        assert NulFreeStatement(s);
        if s.KeyValue? && b != current + s.key[..|s.key| - 1] {
          ClosedNulFree(s.value, b[|current + s.key|..]);
          assert b == current + s.key + b[|current + s.key|..];
        }
        assert NulFree(b);
      }
    }
  }

  lemma {:induction false} CurrentIs(statements: seq<Statement>, n: nat)
    requires n <= |statements| && RunTo(statements, n).Ok?
    ensures RunTo(statements, n).value.currentPath == CurrentPath(statements, n)
  {
    hide Step;
    if n > 0 {
      CurrentIs(statements, n - 1);
      StepCurrent(RunTo(statements, n - 1).value, statements[n - 1], RunTo(statements, n).value);
    }
  }

  lemma StepCurrent(st: State, s: Statement, next: State)
    requires Valid(st) && Step(st, s) == Ok(next)
    ensures next.currentPath == if s.KeyValue? then st.currentPath else s.path
  {
    hide EnsureTable, AssignUnique, AppendArrayTable, MarkClosed, MarkDotted, MarkedNow, ClosedPrefix, CheckDotted;
  }

  lemma {:induction false} PrefixRuns(statements: seq<Statement>, i: nat, n: nat)
    requires i <= n <= |statements| && RunTo(statements, n).Ok?
    ensures RunTo(statements, i).Ok?
    decreases n - i
  {
    hide Step;
    if i < n {
      PrefixRuns(statements, i, n - 1);
    }
  }

  /** The state after the first `i` statements of an accepted document. */
  function StateAt(statements: seq<Statement>, i: nat): (st: State)
    requires Run(statements).Ok? && i <= |statements|
    ensures Valid(st)
  {
    PrefixRuns(statements, i, |statements|);
    RunTo(statements, i).value
  }

  lemma StepAt(statements: seq<Statement>, i: nat)
    requires Run(statements).Ok? && i < |statements|
    ensures Step(StateAt(statements, i), statements[i]) == Ok(StateAt(statements, i + 1))
  {
    hide Step;
    PrefixRuns(statements, i, |statements|);
    PrefixRuns(statements, i + 1, |statements|);
  }

  lemma CurrentAt(statements: seq<Statement>, i: nat)
    requires Run(statements).Ok? && i <= |statements|
    ensures StateAt(statements, i).currentPath == CurrentPath(statements, i)
  {
    PrefixRuns(statements, i, |statements|);
    CurrentIs(statements, i);
  }

  /** The table the statement at `i` made current: the one its header opened or appended. */
  function TableAt(statements: seq<Statement>, i: nat): nat
    requires Run(statements).Ok? && i < |statements|
  {
    StateAt(statements, i + 1).current
  }

  /** The tables the dotted key of statement `i` went through. */
  ghost function DottedAt(statements: seq<Statement>, i: nat): set<nat>
    requires Run(statements).Ok? && i < |statements|
  {
    if statements[i].KeyValue? then
      Touched(StateAt(statements, i + 1).nodes, TableAt(statements, i), statements[i].key)
    else {}
  }

  lemma StepKeepsInv(u: iset<Path>, st: State, t: Trace, s: Statement, next: State) returns (t': Trace)
    requires Names(u) && Inv(u, st, t) && StatementNamed(u, st.currentPath, s) && Step(st, s) == Ok(next)
    ensures Inv(u, next, t')
    ensures t.headed <= t'.headed && t.dotted <= t'.dotted && t.elements <= t'.elements
    ensures s.Header? ==> next.current in t'.headed - t.headed
    ensures s.ArrayHeader? ==> next.current in t'.elements
    ensures s.KeyValue? ==> Touched(next.nodes, next.current, s.key) <= t'.dotted
  {
    match s
    case Header(path) => t' := HeaderKeepsInv(u, st, t, path);
    case ArrayHeader(path) => t' := ArrayHeaderKeepsInv(u, st, t, path, next);
    case KeyValue(key, value) => t' := KeyValueKeepsInv(u, st, t, key, value, next);
  }

  lemma InitialInv(u: iset<Path>)
    requires Names(u)
    ensures Inv(u, Initial, Trace([[]], {}, {}, {}))
  {
  }

  lemma {:induction false} InvAt(u: iset<Path>, statements: seq<Statement>, n: nat) returns (t: Trace)
    requires DocumentNamed(u, statements) && n <= |statements| && RunTo(statements, n).Ok?
    ensures Inv(u, RunTo(statements, n).value, t)
    decreases n
  {
    hide Step, Inv, Touched, Names, StatementNamed;
    if n == 0 {
      InitialInv(u);
      t := Trace([[]], {}, {}, {});
    } else {
      var before := InvAt(u, statements, n - 1);
      CurrentIs(statements, n - 1);
      t := StepKeepsInv(u, RunTo(statements, n - 1).value, before, statements[n - 1], RunTo(statements, n).value);
    }
  }

  lemma StartState(statements: seq<Statement>)
    requires Run(statements).Ok?
    ensures StateAt(statements, 0) == Initial
  {
  }

  /** The invariant holds after the first `n` statements, with a trace that lists what they opened and went through. */
  lemma {:induction false} RunKeepsInv(u: iset<Path>, statements: seq<Statement>, n: nat) returns (t: Trace)
    requires Run(statements).Ok? && DocumentNamed(u, statements) && n <= |statements|
    ensures Inv(u, StateAt(statements, n), t)
    ensures forall i :: 0 <= i < n && statements[i].Header? ==> TableAt(statements, i) in t.headed
    ensures forall i :: 0 <= i < n && statements[i].ArrayHeader? ==> TableAt(statements, i) in t.elements
    ensures forall i :: 0 <= i < n ==> DottedAt(statements, i) <= t.dotted
    decreases n
  {
    hide Step, Inv, Touched, Names, StatementNamed, CurrentPath, RunTo;
    if n == 0 {
      StartState(statements);
      InitialInv(u);
      t := Trace([[]], {}, {}, {});
    } else {
      var before := RunKeepsInv(u, statements, n - 1);
      CurrentAt(statements, n - 1);
      StepAt(statements, n - 1);
      t := StepKeepsInv(u, StateAt(statements, n - 1), before, statements[n - 1], StateAt(statements, n));
    }
  }

  /** No table is opened by two `[p]` headers. */
  lemma NoTableOpenedTwice(statements: seq<Statement>, i: nat, j: nat)
    requires Run(statements).Ok? && CollisionFree(statements)
    requires i < j < |statements| && statements[i].Header? && statements[j].Header?
    ensures TableAt(statements, i) != TableAt(statements, j)
  {
    hide Step, Inv, Names, StatementNamed, CollisionFree, Used, Touched;
    var u := Used(statements);
    UsedNamed(statements);
    var t := RunKeepsInv(u, statements, j);
    StepAt(statements, j);
    CurrentAt(statements, j);
    var _ := StepKeepsInv(u, StateAt(statements, j), t, statements[j], StateAt(statements, j + 1));
  }

  /** No `[p]` header opens a table that a dotted key created or went through, before it or after it. */
  lemma HeadersAvoidDottedTables(statements: seq<Statement>, header: nat, dotted: nat)
    requires Run(statements).Ok? && CollisionFree(statements)
    requires header < |statements| && statements[header].Header? && dotted < |statements|
    ensures TableAt(statements, header) !in DottedAt(statements, dotted)
  {
    UsedNamed(statements);
    var t := RunKeepsInv(Used(statements), statements, |statements|);
  }

  /** No `[p]` header opens an element that a `[[p]]` header appended, before it or after it. */
  lemma HeadersAvoidArrayElements(statements: seq<Statement>, header: nat, element: nat)
    requires Run(statements).Ok? && CollisionFree(statements)
    requires header < |statements| && statements[header].Header?
    requires element < |statements| && statements[element].ArrayHeader?
    ensures TableAt(statements, header) != TableAt(statements, element)
  {
    UsedNamed(statements);
    var t := RunKeepsInv(Used(statements), statements, |statements|);
  }

  lemma StepAvoidsLiterals(u: iset<Path>, st: State, t: Trace, s: Statement)
    requires Names(u) && Inv(u, st, t) && StatementNamed(u, st.currentPath, s)
    ensures Step(st, s) != Err(EntersLiteral)
  {
    match s
    case Header(path) => HeaderAvoidsLiterals(u, st, t, path);
    case ArrayHeader(path) => AppendAvoidsLiterals(u, st, t, path);
    case KeyValue(key, value) => KeyValueAvoidsLiterals(u, st, t, key, value);
  }

  /** Accepted or not, no document makes the parser walk into a value written as an array or an inline table. */
  lemma {:induction false} NeverEntersLiterals(statements: seq<Statement>, n: nat)
    requires CollisionFree(statements) && n <= |statements|
    ensures RunTo(statements, n) != Err(EntersLiteral)
    decreases n
  {
    hide CollisionFree, Used, Names, StatementNamed;
    if n > 0 {
      NeverEntersLiterals(statements, n - 1);
      if RunTo(statements, n - 1).Ok? {
        var u := Used(statements);
        UsedNamed(statements);
        var t := InvAt(u, statements, n - 1);
        CurrentIs(statements, n - 1);
        StepAvoidsLiterals(u, RunTo(statements, n - 1).value, t, statements[n - 1]);
      }
    }
  }

  // ----- Bindings survive -----

  predicate Continues(e: Entry, e': Entry) {
    e' == e || (e.Tables? && e'.Tables? && e.elements <= e'.elements)
  }

  ghost predicate Survives(a: Store, b: Store) {
    |a| <= |b| && forall n, k :: 0 <= n < |a| && k in a[n] ==> k in b[n] && Continues(a[n][k], b[n][k])
  }

  lemma SurvivesTransitive(a: Store, b: Store, c: Store)
    requires Survives(a, b) && Survives(b, c)
    ensures Survives(a, c)
  {
    forall n, k | 0 <= n < |a| && k in a[n] ensures k in c[n] && Continues(a[n][k], c[n][k]) {
      assert Continues(a[n][k], b[n][k]) && Continues(b[n][k], c[n][k]);
    }
  }

  lemma StepSurvives(st: State, s: Statement)
    requires Valid(st) && Step(st, s).Ok?
    ensures Survives(st.nodes, Step(st, s).value.nodes)
  {
    if s.ArrayHeader? {
      var p := EnsureTable(st.nodes, 0, s.path[..|s.path| - 1]).value;
      var b := Step(st, s).value.nodes;
      forall n, k | 0 <= n < |st.nodes| && k in st.nodes[n]
        ensures k in b[n] && Continues(st.nodes[n][k], b[n][k])
      {
        assert p.nodes[n][k] == st.nodes[n][k];
      }
    }
  }

  /** No accepted statement removes or overwrites a binding; an array of tables only grows at its end. */
  lemma {:induction false} BindingsSurvive(statements: seq<Statement>, i: nat, j: nat)
    requires Run(statements).Ok? && i <= j <= |statements|
    ensures Survives(StateAt(statements, i).nodes, StateAt(statements, j).nodes)
    decreases j
  {
    hide Step;
    if i < j {
      BindingsSurvive(statements, i, j - 1);
      StepAt(statements, j - 1);
      StepSurvives(StateAt(statements, j - 1), statements[j - 1]);
      SurvivesTransitive(StateAt(statements, i).nodes, StateAt(statements, j - 1).nodes, StateAt(statements, j).nodes);
    }
  }

  // ----- Declaration contexts -----

  predicate LeadsToNew(nodes: Store, p: Path, lo: nat) {
    Resolve(nodes, 0, p).None? || lo <= Resolve(nodes, 0, p).value
  }

  lemma AppendLeaves(u: iset<Path>, nodes: Store, homes: seq<Path>, at: nat, name: Segment, before: seq<nat>, path: Path, p: Path)
    requires Appends(u, nodes, homes, at, name, before, path) && !(path <= p)
    ensures Resolve(AppendTable(nodes, at, name, before), 0, p) == Resolve(nodes, 0, p)
  {
    assert homes[0] + p == p;
    ResolveRebound(u, nodes, homes, at, name, Tables(before + [|nodes|]), 0, p);
  }

  lemma AppendReplaces(u: iset<Path>, nodes: Store, homes: seq<Path>, at: nat, name: Segment, before: seq<nat>, path: Path, p: Path)
    requires Appends(u, nodes, homes, at, name, before, path) && path <= p
    ensures LeadsToNew(AppendTable(nodes, at, name, before), p, |nodes|)
  {
    AppendResolves(u, nodes, homes, at, name, before, path);
    ResolveConcat(AppendTable(nodes, at, name, before), 0, path, p[|path|..]);
    assert p == path + p[|path|..];
  }

  lemma ArrayHeaderMoves(u: iset<Path>, st: State, t: Trace, path: KeyPath, next: State, p: Path)
    requires Names(u) && Inv(u, st, t) && path in u && p in u && StepArrayHeader(st, path) == Ok(next)
    ensures if path <= p then LeadsToNew(next.nodes, p, |st.nodes|)
            else Context(p, next.epochs) == Context(p, st.epochs)
                 && (Resolve(next.nodes, 0, p) == Resolve(st.nodes, 0, p) || LeadsToNew(next.nodes, p, |st.nodes|))
  {
    hide StepArrayHeader, AllMarked, LiteralsClosed, AtHome, AppendTable;
    var name := path[|path| - 1];
    var parent, homes, before := ArrayHeaderAppends(u, st, t, path, next);
    if path <= p {
      AppendReplaces(u, parent.nodes, homes, parent.at, name, before, path, p);
    } else {
      forall j | 0 <= j <= |p| ensures p[..j] != path {
        assert p[..j] <= p;
      }
      ContextIgnores(u, p, |p|, path, st.epochs);
      AppendLeaves(u, parent.nodes, homes, parent.at, name, before, path, p);
      ResolveGrows(st.nodes, parent.nodes, 0, p);
    }
  }

  lemma StepMoves(u: iset<Path>, st: State, t: Trace, s: Statement, next: State, p: Path)
    requires Names(u) && Inv(u, st, t) && StatementNamed(u, st.currentPath, s) && p in u && Step(st, s) == Ok(next)
    ensures Context(p, next.epochs) != Context(p, st.epochs) ==> LeadsToNew(next.nodes, p, |st.nodes|)
    ensures Resolve(next.nodes, 0, p) == Resolve(st.nodes, 0, p) || LeadsToNew(next.nodes, p, |st.nodes|)
  {
    match s
    case Header(path) => ResolveGrows(st.nodes, next.nodes, 0, p);
    case KeyValue(key, value) =>
      assert AssignUnique(st.nodes, st.current, key, value) == Ok(next.nodes);
      ResolveGrows(st.nodes, next.nodes, 0, p);
    case ArrayHeader(path) => ArrayHeaderMoves(u, st, t, path, next, p);
  }

  /** When the declaration context of a path has changed, the path no longer leads to any table it could lead to then. */
  lemma {:induction false} ContextChangeMeansNewTable(u: iset<Path>, statements: seq<Statement>, i: nat, j: nat, p: Path)
    requires Run(statements).Ok? && DocumentNamed(u, statements) && p in u && i <= j <= |statements|
    ensures Context(p, StateAt(statements, j).epochs) != Context(p, StateAt(statements, i).epochs) ==>
              LeadsToNew(StateAt(statements, j).nodes, p, |StateAt(statements, i).nodes|)
    decreases j
  {
    hide Step, Inv, Names, StatementNamed, Context, Resolve, Touched, RunTo;
    if i < j {
      ContextChangeMeansNewTable(u, statements, i, j - 1, p);
      BindingsSurvive(statements, i, j - 1);
      var t := RunKeepsInv(u, statements, j - 1);
      CurrentAt(statements, j - 1);
      StepAt(statements, j - 1);
      StepMoves(u, StateAt(statements, j - 1), t, statements[j - 1], StateAt(statements, j), p);
    }
  }
}
