/** The loops of `parseDocument` and of its helpers, each proved against the table-definition machine. */
module DocumentParser {
  import opened Results
  import opened Paths
  import M = TableMachine
  import Decimal

  method DeclarationContext(path: Path, epochs: M.Epochs) returns (context: string)
    ensures context == M.Context(path, epochs)
  {
    if |epochs| == 0 {
      NoEpochsNoContext(path, |path|, epochs);
      return "";
    }
    var i := |path|;
    while i > 0
      invariant 0 <= i <= |path|
      invariant M.Context(path, epochs) == M.ContextFrom(path, i, epochs)
    {
      var prefix := Encode(path[..i]);
      if prefix in epochs && epochs[prefix] > 0 {
        return prefix + "#" + Decimal.OfNat(epochs[prefix]);
      }
      i := i - 1;
    }
    return "";
  }

  lemma {:induction false} NoEpochsNoContext(path: Path, i: nat, epochs: M.Epochs)
    requires i <= |path| && epochs == map[]
    ensures M.ContextFrom(path, i, epochs) == ""
    decreases i
  {
    if i > 0 {
      NoEpochsNoContext(path, i - 1, epochs);
    }
  }

  method IsMarkedNow(marks: M.Marks, path: Path, epochs: M.Epochs) returns (b: bool)
    ensures b == M.MarkedNow(marks, path, epochs)
  {
    var key := Encode(path);
    var context := DeclarationContext(path, epochs);
    return key in marks && marks[key] == context;
  }

  method ClosedInlinePrefix(path: Path, closed: M.Marks, epochs: M.Epochs) returns (b: bool)
    ensures b == M.ClosedPrefix(path, closed, epochs)
  {
    if |closed| == 0 {
      return false;
    }
    var i := 1;
    while i <= |path|
      invariant 1 <= i <= |path| + 1
      invariant forall j :: 1 <= j < i ==> !M.MarkedNow(closed, path[..j], epochs)
    {
      var marked := IsMarkedNow(closed, path[..i], epochs);
      if marked {
        return true;
      }
      i := i + 1;
    }
    return false;
  }

  method MarkDottedKeyTables(dotted: M.Marks, fullPath: Path, currentPathLength: nat, epochs: M.Epochs)
    returns (marks: M.Marks)
    ensures marks == M.MarkDotted(dotted, fullPath, currentPathLength + 1, epochs)
  {
    marks := dotted;
    var i := currentPathLength + 1;
    while i < |fullPath|
      invariant M.MarkDotted(dotted, fullPath, currentPathLength + 1, epochs) == M.MarkDotted(marks, fullPath, i, epochs)
    {
      var context := DeclarationContext(fullPath[..i], epochs);
      marks := marks[Encode(fullPath[..i]) := context];
      i := i + 1;
    }
  }

  method CheckDottedPrefixes(declared: M.Marks, closed: M.Marks, fullPath: Path, currentPathLength: nat,
                             epochs: M.Epochs)
    returns (r: Result<(), M.Fault>)
    ensures r == M.CheckDotted(declared, closed, fullPath, currentPathLength + 1, epochs)
  {
    var i := currentPathLength + 1;
    while i < |fullPath|
      invariant M.CheckDotted(declared, closed, fullPath, currentPathLength + 1, epochs)
             == M.CheckDotted(declared, closed, fullPath, i, epochs)
    {
      if Encode(fullPath[..i]) in declared {
        return Err(M.ExtendsExplicitTable);
      }
      var marked := IsMarkedNow(closed, fullPath[..i], epochs);
      if marked {
        return Err(M.ExtendsInlineTable);
      }
      i := i + 1;
    }
    return Ok(());
  }

  /** The tree of tables under construction, whose root is node 0, and the bookkeeping of `parseDocument`. */
  class Builder {
    var nodes: M.Store
    var current: nat
    var currentPath: Path
    var declared: M.Marks
    var dotted: M.Marks
    var closed: M.Marks
    var arrays: set<string>
    var epochs: M.Epochs

    ghost function State(): M.State
      reads this
    {
      M.State(nodes, current, currentPath, declared, dotted, closed, arrays, epochs)
    }

    ghost predicate Valid()
      reads this
    {
      M.Valid(State())
    }

    constructor ()
      ensures Valid() && State() == M.Initial
    {
      nodes, current, currentPath := [map[]], 0, [];
      declared, dotted, closed := map[], map[], map[];
      arrays, epochs := {}, map[];
    }

    method EnsureTable(path: Path) returns (r: Result<nat, M.Fault>)
      requires Valid()
      modifies `nodes
      ensures match M.EnsureTable(old(nodes), 0, path)
              case Ok(place) => r == Ok(place.at) && nodes == place.nodes
              case Err(f) => r == Err(f)
    {
      var cur: nat := 0;
      var i := 0;
      while i < |path|
        invariant 0 <= i <= |path| && Valid() && cur < |nodes|
        invariant M.EnsureTable(old(nodes), 0, path) == M.EnsureTable(nodes, cur, path[i..])
      {
        var p := path[i];
        assert path[i..][1..] == path[i + 1..];
        if p !in nodes[cur] {
          M.NewTableGrows(nodes, cur, p);
          nodes, cur := M.NewTable(nodes, cur, p), |nodes|;
        } else {
          var e := nodes[cur][p];
          assert M.WfEntry(e, |nodes|);
          match e
          case Table(n) => cur := n;
          case Tables(ns) => cur := ns[|ns| - 1];
          case Value(v) => return Err(if M.OpensAsTable(v) then M.EntersLiteral else M.RedefinesValueAsTable);
        }
        i := i + 1;
      }
      return Ok(cur);
    }

    method AppendArrayTable(path: KeyPath) returns (r: Result<nat, M.Fault>)
      requires Valid()
      modifies `nodes
      ensures match M.AppendArrayTable(old(nodes), path)
              case Ok(place) => r == Ok(place.at) && nodes == place.nodes
              case Err(f) => r == Err(f)
    {
      var parent :- EnsureTable(path[..|path| - 1]);
      var name := path[|path| - 1];
      var before := [];
      if name in nodes[parent] {
        match nodes[parent][name]
        case Tables(ns) => before := ns;
        case Value(v) => return Err(if v.Array? then M.EntersLiteral else M.RedefinesValueAsArray);
        case Table(_) => return Err(M.RedefinesValueAsArray);
      }
      var table := |nodes|;
      nodes := M.AppendTable(nodes, parent, name, before);
      return Ok(table);
    }

    method AssignUnique(root: nat, key: KeyPath, value: M.Literal) returns (r: Result<(), M.Fault>)
      requires Valid() && root < |nodes|
      modifies `nodes
      ensures match M.AssignUnique(old(nodes), root, key, value)
              case Ok(after) => r == Ok(()) && nodes == after
              case Err(f) => r == Err(f)
    {
      var cur: nat := root;
      var i := 0;
      while i < |key| - 1
        invariant 0 <= i < |key| && Valid() && cur < |nodes|
        invariant M.AssignUnique(old(nodes), root, key, value) == M.AssignUnique(nodes, cur, key[i..], value)
      {
        var p := key[i];
        assert key[i..][1..] == key[i + 1..];
        if p !in nodes[cur] {
          M.NewTableGrows(nodes, cur, p);
          nodes, cur := M.NewTable(nodes, cur, p), |nodes|;
        } else {
          assert M.WfEntry(nodes[cur][p], |nodes|);
          match nodes[cur][p]
          case Table(n) => cur := n;
          case Value(v) => return Err(if v.InlineTable? then M.EntersLiteral else M.RedefinesValueAsTable);
          case Tables(_) => return Err(M.RedefinesValueAsTable);
        }
        i := i + 1;
      }
      var last := key[i];
      if last in nodes[cur] {
        return Err(M.DuplicateKey);
      }
      nodes := M.Bind(nodes, cur, last, M.Value(value));
      return Ok(());
    }

    method OpenTable(path: KeyPath) returns (r: Result<(), M.Fault>)
      requires Valid()
      modifies this
      ensures match M.StepHeader(old(State()), path)
              case Ok(next) => r == Ok(()) && State() == next
              case Err(f) => r == Err(f)
    {
      var key := Encode(path);
      var context := DeclarationContext(path, epochs);
      if key in arrays {
        return Err(M.RedefinesArrayTable);
      }
      if key in dotted && dotted[key] == context {
        return Err(M.RedefinesDottedTable);
      }
      var isClosed := ClosedInlinePrefix(path, closed, epochs);
      if isClosed {
        return Err(M.ExtendsInlineTable);
      }
      if key in declared && declared[key] == context {
        return Err(M.DuplicateTable);
      }
      var next :- EnsureTable(path);
      current, currentPath := next, path;
      declared := declared[key := context];
      return Ok(());
    }

    method OpenArrayTable(path: KeyPath) returns (r: Result<(), M.Fault>)
      requires Valid()
      modifies this
      ensures match M.StepArrayHeader(old(State()), path)
              case Ok(next) => r == Ok(()) && State() == next
              case Err(f) => r == Err(f)
    {
      var key := Encode(path);
      if key in declared {
        return Err(M.RedefinesTableAsArray);
      }
      var context := DeclarationContext(path, epochs);
      if key in dotted && dotted[key] == context {
        return Err(M.RedefinesDottedTable);
      }
      var isClosed := ClosedInlinePrefix(path, closed, epochs);
      if isClosed {
        return Err(M.ExtendsInlineTable);
      }
      arrays, epochs := arrays + {key}, M.Bump(epochs, key);
      var next :- AppendArrayTable(path);
      current, currentPath := next, path;
      return Ok(());
    }

    method AssignKey(key: KeyPath, value: M.Literal) returns (r: Result<(), M.Fault>)
      requires Valid()
      modifies this
      ensures match M.StepKeyValue(old(State()), key, value)
              case Ok(next) => r == Ok(()) && State() == next
              case Err(f) => r == Err(f)
    {
      var fullPath := currentPath + key;
      if |key| > 1 {
        var _ :- CheckDottedPrefixes(declared, closed, fullPath, |currentPath|, epochs);
      }
      var _ :- AssignUnique(current, key, value);
      if |key| > 1 {
        dotted := MarkDottedKeyTables(dotted, fullPath, |currentPath|, epochs);
      }
      closed := M.MarkClosed(closed, fullPath, value, epochs);
      return Ok(());
    }
  }

  /** `parseDocument` from statements on: the tree it builds, or the first fault. */
  method ParseStatements(statements: seq<M.Statement>) returns (document: Builder, r: Result<(), M.Fault>)
    ensures fresh(document)
    ensures match M.Run(statements)
            case Ok(st) => r == Ok(()) && document.State() == st
            case Err(f) => r == Err(f)
  {
    hide M.Step;
    document := new Builder();
    r := Ok(());
    var i := 0;
    while i < |statements|
      invariant 0 <= i <= |statements| && fresh(document)
      invariant r == Ok(()) && M.RunTo(statements, i) == Ok(document.State())
    {
      ghost var before := document.State();
      StepCases(before, statements[i]);
      match statements[i] {
        case Header(path) => r := document.OpenTable(path);
        case ArrayHeader(path) => r := document.OpenArrayTable(path);
        case KeyValue(key, value) => r := document.AssignKey(key, value);
      }
      if r.Err? {
        FaultStops(statements, i + 1, |statements|);
        return;
      }
      i := i + 1;
    }
  }

  lemma StepCases(st: M.State, s: M.Statement)
    requires M.Valid(st)
    ensures M.Step(st, s) == match s
                             case Header(path) => M.StepHeader(st, path)
                             case ArrayHeader(path) => M.StepArrayHeader(st, path)
                             case KeyValue(key, value) => M.StepKeyValue(st, key, value)
  {
  }

  /** A fault ends the run. */
  lemma {:induction false} FaultStops(statements: seq<M.Statement>, i: nat, n: nat)
    requires i <= n <= |statements| && M.RunTo(statements, i).Err?
    ensures M.RunTo(statements, n) == M.RunTo(statements, i)
    decreases n
  {
    hide M.Step;
    if i < n {
      FaultStops(statements, i, n - 1);
    }
  }
}
