/**
 Exactly which statements an accepted document refuses, said of the statements before: which paths were used as arrays
 of tables, headed, gone through by dotted keys or closed, and whether the array element they were used under is still
 the last one.
 */
module TableRefusals {
  import opened Results
  import opened Decimal
  import opened Paths
  import opened TableMachine
  import opened TableSoundness
  import opened TableTheorems

  // ----- Array elements, counted in the statements -----

  /** How often `[[q]]` stands among the first `n` statements. */
  function Epoch(statements: seq<Statement>, n: nat, q: Path): nat
    requires n <= |statements|
  {
    if n == 0 then 0
    else Epoch(statements, n - 1, q)
         + (if statements[n - 1].ArrayHeader? && statements[n - 1].path == q then 1 else 0)
  }

  /** The length of the longest prefix of `p[..i]` that the first `n` statements use as an array of tables. */
  function ArrayPrefix(statements: seq<Statement>, n: nat, p: Path, i: nat): (r: nat)
    requires n <= |statements| && i <= |p|
    ensures r <= i
    ensures r > 0 ==> Epoch(statements, n, p[..r]) > 0
    ensures forall j :: r < j <= i ==> Epoch(statements, n, p[..j]) == 0
  {
    if i == 0 then 0
    else if Epoch(statements, n, p[..i]) > 0 then i
    else ArrayPrefix(statements, n, p, i - 1)
  }

  /** Between statements `i` and `n` the longest array prefix of `p` stays the same and gets no further element. */
  predicate SameElement(statements: seq<Statement>, i: nat, n: nat, p: Path)
    requires i <= n <= |statements|
  {
    var length := ArrayPrefix(statements, n, p, |p|);
    && ArrayPrefix(statements, i, p, |p|) == length
    && (length > 0 ==> Epoch(statements, i, p[..length]) == Epoch(statements, n, p[..length]))
  }

  lemma {:induction false} EpochGrows(statements: seq<Statement>, i: nat, n: nat, q: Path)
    requires i <= n <= |statements|
    ensures Epoch(statements, i, q) <= Epoch(statements, n, q)
  {
    if i < n {
      EpochGrows(statements, i, n - 1, q);
    }
  }

  lemma ArrayPrefixGrows(statements: seq<Statement>, i: nat, n: nat, p: Path)
    requires i <= n <= |statements|
    ensures ArrayPrefix(statements, i, p, |p|) <= ArrayPrefix(statements, n, p, |p|)
  {
    var length := ArrayPrefix(statements, i, p, |p|);
    if length > 0 {
      EpochGrows(statements, i, n, p[..length]);
    }
  }

  /** An element that is the last one still was the last one in between. */
  lemma SameElementLater(statements: seq<Statement>, i: nat, j: nat, n: nat, p: Path)
    requires i <= j <= n <= |statements| && SameElement(statements, i, n, p)
    ensures SameElement(statements, j, n, p)
  {
    var length := ArrayPrefix(statements, n, p, |p|);
    ArrayPrefixGrows(statements, i, j, p);
    ArrayPrefixGrows(statements, j, n, p);
    if length > 0 {
      EpochGrows(statements, i, j, p[..length]);
      EpochGrows(statements, j, n, p[..length]);
    }
  }

  // ----- The declaration context is the array element -----

  function EpochOf(epochs: Epochs, q: Path): nat {
    if Encode(q) in epochs then epochs[Encode(q)] else 0
  }

  lemma StepEpochs(st: State, s: Statement, next: State)
    requires Valid(st) && Step(st, s) == Ok(next)
    ensures if s.ArrayHeader? then
              next.epochs == Bump(st.epochs, Encode(s.path)) && next.arrays == st.arrays + {Encode(s.path)}
            else next.epochs == st.epochs && next.arrays == st.arrays
  {
    hide EnsureTable, AssignUnique, AppendArrayTable, MarkClosed, MarkDotted, MarkedNow, ClosedPrefix, CheckDotted, Encode;
  }

  lemma {:induction false} EpochsCount(u: iset<Path>, statements: seq<Statement>, n: nat, q: KeyPath)
    requires DocumentNamed(u, statements) && n <= |statements| && RunTo(statements, n).Ok? && q in u
    ensures var st := RunTo(statements, n).value;
      EpochOf(st.epochs, q) == Epoch(statements, n, q) && (Encode(q) in st.arrays <==> Epoch(statements, n, q) > 0)
  {
    hide Step;
    if n > 0 {
      EpochsCount(u, statements, n - 1, q);
      StepEpochs(RunTo(statements, n - 1).value, statements[n - 1], RunTo(statements, n).value);
      assert StatementNamed(u, CurrentPath(statements, n - 1), statements[n - 1]);
    }
  }

  function ContextText(p: Path, length: nat, epoch: nat): string
    requires length <= |p|
  {
    if length == 0 then "" else Encode(p[..length]) + "#" + OfNat(epoch)
  }

  lemma {:induction false} ContextFromCounts(u: iset<Path>, statements: seq<Statement>, n: nat, p: Path, i: nat)
    requires DocumentNamed(u, statements) && n <= |statements| && RunTo(statements, n).Ok? && p in u && i <= |p|
    ensures var length := ArrayPrefix(statements, n, p, i);
      ContextFrom(p, i, RunTo(statements, n).value.epochs) == ContextText(p, length, Epoch(statements, n, p[..length]))
  {
    hide DocumentNamed, Names, Encode, OfNat, RunTo, Epoch;
    if i > 0 {
      assert Names(u) by {
        NamesOf(u, statements);
      }
      PrefixNamed(u, p[..i], p);
      EpochsCount(u, statements, n, p[..i]);
      ContextFromCounts(u, statements, n, p, i - 1);
    }
  }

  lemma NamesOf(u: iset<Path>, statements: seq<Statement>)
    requires DocumentNamed(u, statements)
    ensures Names(u)
  {
  }

  lemma {:induction false} DigitsHaveNoMark(s: string)
    requires AllDigits(s)
    ensures '#' !in s
  {
  }

  lemma TailsAgree(a: string, s: string, b: string, t: string)
    requires a + "#" + s == b + "#" + t && '#' !in s && '#' !in t
    ensures a == b && s == t
  {
    var x, y := a + "#" + s, b + "#" + t;
    assert x[|a|] == '#' && y[|b|] == '#';
    assert x[..|a|] == a && y[..|b|] == b && x[|a| + 1..] == s && y[|b| + 1..] == t;
  }

  lemma ContextTextsAgree(u: iset<Path>, p: Path, m: nat, e: nat, n: nat, f: nat)
    requires Names(u) && p in u && m <= |p| && n <= |p|
    ensures ContextText(p, m, e) == ContextText(p, n, f) <==> m == n && (m > 0 ==> e == f)
  {
    if ContextText(p, m, e) == ContextText(p, n, f) && m > 0 && n > 0 {
      DigitsHaveNoMark(OfNat(e));
      DigitsHaveNoMark(OfNat(f));
      TailsAgree(Encode(p[..m]), OfNat(e), Encode(p[..n]), OfNat(f));
      PrefixNamed(u, p[..m], p);
      PrefixNamed(u, p[..n], p);
      assert p[..m] == p[..n];
      ValueOfOfNat(e);
      ValueOfOfNat(f);
    }
  }

  /** A path keeps its declaration context exactly as long as its array element stays the last one. */
  lemma SameContextIff(u: iset<Path>, statements: seq<Statement>, i: nat, n: nat, p: Path)
    requires DocumentNamed(u, statements) && i <= n <= |statements| && RunTo(statements, n).Ok? && p in u
    ensures RunTo(statements, i).Ok?
    ensures Context(p, RunTo(statements, i).value.epochs) == Context(p, RunTo(statements, n).value.epochs)
       <==> SameElement(statements, i, n, p)
  {
    hide DocumentNamed, RunTo;
    PrefixRuns(statements, i, n);
    NamesOf(u, statements);
    ContextFromCounts(u, statements, i, p, |p|);
    ContextFromCounts(u, statements, n, p, |p|);
    var a, b := ArrayPrefix(statements, i, p, |p|), ArrayPrefix(statements, n, p, |p|);
    ContextTextsAgree(u, p, a, Epoch(statements, i, p[..a]), b, Epoch(statements, n, p[..b]));
  }

  // ----- The records a statement makes -----

  datatype Record = Headed | Dotted | Closed

  function MarksOf(kind: Record, st: State): Marks {
    match kind
    case Headed => st.declared
    case Dotted => st.dotted
    case Closed => st.closed
  }

  /** The statement heads `p`, has a dotted key that goes through it, or closes it with its value. */
  predicate Makes(kind: Record, current: Path, s: Statement, p: Path) {
    match kind
    case Headed => s.Header? && s.path == p
    case Dotted => s.KeyValue? && |current| < |p| < |current + s.key| && p <= current + s.key
    case Closed => s.KeyValue? && current + s.key <= p && ClosesAt(s.value, p[|current + s.key|..])
  }

  predicate MakesAt(kind: Record, statements: seq<Statement>, i: nat, p: Path)
    requires i < |statements|
  {
    Makes(kind, CurrentPath(statements, i), statements[i], p)
  }

  predicate MarkedAs(marks: Marks, p: Path, context: string) {
    Encode(p) in marks && marks[Encode(p)] == context
  }

  predicate Unmoved(a: Marks, b: Marks, p: Path) {
    (Encode(p) in a <==> Encode(p) in b) && (Encode(p) in a ==> a[Encode(p)] == b[Encode(p)])
  }

  /** `p` was marked with its context, or not touched. */
  predicate MarkedIf(made: bool, a: Marks, b: Marks, p: Path, epochs: Epochs) {
    if made then MarkedAs(b, p, Context(p, epochs)) else Unmoved(a, b, p)
  }

  lemma SetMarkIs(u: iset<Path>, marks: Marks, path: KeyPath, epochs: Epochs, p: KeyPath)
    requires Names(u) && path in u && p in u
    ensures MarkedIf(path == p, marks, marks[Encode(path) := Context(path, epochs)], p, epochs)
  {
  }

  lemma MarkedThen(a: Marks, b: Marks, c: Marks, p: Path, epochs: Epochs, first: bool, second: bool)
    requires MarkedIf(first, a, b, p, epochs) && MarkedIf(second, b, c, p, epochs)
    ensures MarkedIf(first || second, a, c, p, epochs)
  {
  }

  lemma {:induction false} MarkDottedIs(u: iset<Path>, dotted: Marks, full: Path, i: nat, epochs: Epochs, p: KeyPath)
    requires Names(u) && i >= 1 && (i < |full| ==> full[..|full| - 1] in u) && p in u
    ensures MarkedIf(i <= |p| < |full| && p <= full, dotted, MarkDotted(dotted, full, i, epochs), p, epochs)
    decreases |full| - i
  {
    hide Names, Context, Encode;
    if i < |full| {
      var dotted' := dotted[Encode(full[..i]) := Context(full[..i], epochs)];
      PrefixNamed(u, full[..i], full[..|full| - 1]);
      SetMarkIs(u, dotted, full[..i], epochs, p);
      MarkDottedIs(u, dotted', full, i + 1, epochs, p);
      assert p <= full && |p| == i <==> p == full[..i];
      MarkedThen(dotted, dotted', MarkDotted(dotted, full, i, epochs), p, epochs, p == full[..i],
                 i + 1 <= |p| < |full| && p <= full);
    }
  }

  predicate ClosesBelow(path: Path, v: Literal, p: Path) {
    path <= p && ClosesAt(v, p[|path|..])
  }

  predicate ClosesInBelow(path: Path, entries: seq<Field>, p: Path) {
    path < p && ClosesIn(entries, p[|path|..])
  }

  predicate ClosesItemBelow(path: Path, items: seq<Literal>, p: Path) {
    exists i :: 0 <= i < |items| && items[i].InlineTable? && ClosesInBelow(path, items[i].entries, p)
  }

  lemma {:induction false} MarkClosedIs(u: iset<Path>, closed: Marks, path: KeyPath, v: Literal, epochs: Epochs, p: KeyPath)
    requires Names(u) && ClosesNamed(u, path, v) && p in u
    ensures MarkedIf(ClosesBelow(path, v, p), closed, MarkClosed(closed, path, v, epochs), p, epochs)
    decreases v
  {
    hide Names, Context, Encode, MarkedIf;
    if v.Scalar? {
      NothingMarked(closed, p, epochs);
    } else {
      assert ClosesAt(v, []) && path + [] == path;
      var closed' := closed[Encode(path) := Context(path, epochs)];
      SetMarkIs(u, closed, path, epochs, p);
      var below := if v.InlineTable? then ClosesInBelow(path, v.entries, p) else ClosesItemBelow(path, v.items, p);
      if v.InlineTable? {
        MarkClosedEntriesIs(u, closed', path, v.entries, epochs, p);
      } else {
        MarkClosedItemsIs(u, closed', path, v.items, epochs, p);
      }
      MarkedThen(closed, closed', MarkClosed(closed, path, v, epochs), p, epochs, path == p, below);
      assert path <= p && p[|path|..] == [] <==> path == p;
    }
  }

  lemma NothingMarked(marks: Marks, p: Path, epochs: Epochs)
    ensures MarkedIf(false, marks, marks, p, epochs)
  {
  }

  lemma {:induction false} MarkClosedEntriesIs(u: iset<Path>, closed: Marks, path: KeyPath, entries: seq<Field>,
                                               epochs: Epochs, p: KeyPath)
    requires Names(u) && p in u && forall r: KeyPath :: ClosesIn(entries, r) ==> path + r in u
    ensures MarkedIf(ClosesInBelow(path, entries, p), closed, MarkClosedEntries(closed, path, entries, epochs), p, epochs)
    decreases entries
  {
    hide Names, Context, Encode, MarkedIf;
    if entries == [] {
      NothingMarked(closed, p, epochs);
    } else {
      var child, rest := path + [entries[0].key], entries[1..];
      var closed' := MarkClosed(closed, child, entries[0].value, epochs);
      FieldNamed(u, path, entries, 0);
      MarkClosedIs(u, closed, child, entries[0].value, epochs, p);
      RestNamed(u, path, entries);
      MarkClosedEntriesIs(u, closed', path, rest, epochs, p);
      MarkedThen(closed, closed', MarkClosedEntries(closed, path, entries, epochs), p, epochs,
                 ClosesBelow(child, entries[0].value, p), ClosesInBelow(path, rest, p));
      EntriesSplit(path, entries, p);
    }
  }

  lemma RestNamed(u: iset<Path>, path: Path, entries: seq<Field>)
    requires entries != [] && forall r: KeyPath :: ClosesIn(entries, r) ==> path + r in u
    ensures forall r: KeyPath :: ClosesIn(entries[1..], r) ==> path + r in u
  {
    forall r: KeyPath | ClosesIn(entries[1..], r) ensures path + r in u {
      var i :| 0 <= i < |entries[1..]| && entries[1..][i].key == r[0] && ClosesAt(entries[1..][i].value, r[1..]);
      assert entries[i + 1] == entries[1..][i];
    }
  }

  lemma EntriesSplit(path: Path, entries: seq<Field>, p: Path)
    requires entries != []
    ensures ClosesInBelow(path, entries, p) <==>
              ClosesBelow(path + [entries[0].key], entries[0].value, p) || ClosesInBelow(path, entries[1..], p)
  {
    var rest := entries[1..];
    assert forall i :: 0 < i < |entries| ==> entries[i] == rest[i - 1];
    if path < p {
      var r: KeyPath := p[|path|..];
      assert path + [entries[0].key] <= p <==> r[0] == entries[0].key;
      assert r[1..] == p[|path| + 1..];
      if ClosesIn(entries, r) {
        var i :| 0 <= i < |entries| && entries[i].key == r[0] && ClosesAt(entries[i].value, r[1..]);
        if i > 0 {
          assert rest[i - 1] == entries[i];
        }
      }
      if ClosesIn(rest, r) {
        var i :| 0 <= i < |rest| && rest[i].key == r[0] && ClosesAt(rest[i].value, r[1..]);
        assert entries[i + 1] == rest[i];
      }
    }
  }

  lemma {:induction false} MarkClosedItemsIs(u: iset<Path>, closed: Marks, path: KeyPath, items: seq<Literal>,
                                             epochs: Epochs, p: KeyPath)
    requires Names(u) && p in u
    requires forall i, r: KeyPath :: 0 <= i < |items| && items[i].InlineTable? && ClosesIn(items[i].entries, r) ==> path + r in u
    ensures MarkedIf(ClosesItemBelow(path, items, p), closed, MarkClosedItems(closed, path, items, epochs), p, epochs)
    decreases items
  {
    hide Names, Context, Encode, MarkedIf;
    if items == [] {
      NothingMarked(closed, p, epochs);
    } else {
      var rest := items[1..];
      var first := items[0].InlineTable? && ClosesInBelow(path, items[0].entries, p);
      var closed' :=
        if items[0].InlineTable? then MarkClosedEntries(closed, path, items[0].entries, epochs) else closed;
      if items[0].InlineTable? {
        MarkClosedEntriesIs(u, closed, path, items[0].entries, epochs, p);
      } else {
        NothingMarked(closed, p, epochs);
      }
      assert forall i :: 0 <= i < |rest| ==> rest[i] == items[i + 1];
      MarkClosedItemsIs(u, closed', path, rest, epochs, p);
      MarkedThen(closed, closed', MarkClosedItems(closed, path, items, epochs), p, epochs, first, ClosesItemBelow(path, rest, p));
      ItemsSplit(path, items, p);
    }
  }

  lemma ItemsSplit(path: Path, items: seq<Literal>, p: Path)
    requires items != []
    ensures ClosesItemBelow(path, items, p) <==>
              (items[0].InlineTable? && ClosesInBelow(path, items[0].entries, p)) || ClosesItemBelow(path, items[1..], p)
  {
    hide ClosesInBelow;
    var rest := items[1..];
    assert forall i :: 0 <= i < |rest| ==> rest[i] == items[i + 1];
    if ClosesItemBelow(path, items, p) {
      var i :| 0 <= i < |items| && items[i].InlineTable? && ClosesInBelow(path, items[i].entries, p);
      if i > 0 {
        assert rest[i - 1] == items[i];
      }
    }
  }

  /** A statement marks the paths it makes records for with their contexts, and moves no other mark. */
  lemma StepMarks(u: iset<Path>, kind: Record, st: State, s: Statement, next: State, p: KeyPath)
    requires Names(u) && Valid(st) && StatementNamed(u, st.currentPath, s) && p in u && Step(st, s) == Ok(next)
    ensures MarkedIf(Makes(kind, st.currentPath, s, p), MarksOf(kind, st), MarksOf(kind, next), p, st.epochs)
  {
    hide Names, Context, Encode, MarkedNow, ClosedPrefix, CheckDotted, EnsureTable, AppendArrayTable, AssignUnique, MarkedIf;
    NothingMarked(MarksOf(kind, st), p, st.epochs);
    if s.Header? && kind.Headed? {
      SetMarkIs(u, st.declared, s.path, st.epochs, p);
    }
    if s.KeyValue? {
      var full := st.currentPath + s.key;
      assert full[..|full| - 1] == st.currentPath + s.key[..|s.key| - 1];
      MarkDottedIs(u, st.dotted, full, |st.currentPath| + 1, st.epochs, p);
      MarkClosedIs(u, st.closed, full, s.value, st.epochs, p);
    }
  }

  // ----- The mark of a path is the context of the last statement that made it -----

  ghost predicate LastAt(kind: Record, statements: seq<Statement>, i: nat, n: nat, p: Path)
    requires n <= |statements|
  {
    i < n && MakesAt(kind, statements, i, p) && forall j :: i < j < n ==> !MakesAt(kind, statements, j, p)
  }

  ghost predicate MarkIsLast(kind: Record, statements: seq<Statement>, i: nat, n: nat, p: Path)
    requires n <= |statements| && RunTo(statements, n).Ok?
  {
    && LastAt(kind, statements, i, n, p) && RunTo(statements, i).Ok?
    && MarkedAs(MarksOf(kind, RunTo(statements, n).value), p, Context(p, RunTo(statements, i).value.epochs))
  }

  lemma {:induction false} LastRecord(u: iset<Path>, kind: Record, statements: seq<Statement>, n: nat, p: KeyPath)
    requires DocumentNamed(u, statements) && n <= |statements| && RunTo(statements, n).Ok? && p in u
    ensures || (exists i: nat :: MarkIsLast(kind, statements, i, n, p))
            || (Encode(p) !in MarksOf(kind, RunTo(statements, n).value)
                && forall i :: 0 <= i < n ==> !MakesAt(kind, statements, i, p))
  {
    hide Step, Names, Context, Encode, StatementNamed, Makes, CurrentPath;
    if n > 0 {
      LastRecord(u, kind, statements, n - 1, p);
      CurrentIs(statements, n - 1);
      var st, next := RunTo(statements, n - 1).value, RunTo(statements, n).value;
      StepMarks(u, kind, st, statements[n - 1], next, p);
      if MakesAt(kind, statements, n - 1, p) {
        assert MarkIsLast(kind, statements, n - 1, n, p);
      } else if Encode(p) in MarksOf(kind, st) {
        var m := n - 1;
        var i: nat :| MarkIsLast(kind, statements, i, m, p);
        assert MarkIsLast(kind, statements, i, n, p);
      }
    }
  }

  /** An earlier statement made the record while the array element of the path was the one that is last now. */
  predicate Standing(kind: Record, statements: seq<Statement>, p: Path) {
    exists i :: 0 <= i < |statements| && MakesAt(kind, statements, i, p) && SameElement(statements, i, |statements|, p)
  }

  predicate Ever(kind: Record, statements: seq<Statement>, p: Path) {
    exists i :: 0 <= i < |statements| && MakesAt(kind, statements, i, p)
  }

  lemma RecordedIff(u: iset<Path>, kind: Record, statements: seq<Statement>, p: KeyPath)
    requires DocumentNamed(u, statements) && Run(statements).Ok? && p in u
    ensures var st := Run(statements).value;
      && (MarkedNow(MarksOf(kind, st), p, st.epochs) <==> Standing(kind, statements, p))
      && (Encode(p) in MarksOf(kind, st) <==> Ever(kind, statements, p))
  {
    hide RunTo, Context, Encode, DocumentNamed, SameElement, MakesAt;
    var n := |statements|;
    LastRecord(u, kind, statements, n, p);
    if last: nat :| MarkIsLast(kind, statements, last, n, p) {
      SameContextIff(u, statements, last, n, p);
      if Standing(kind, statements, p) {
        var i :| 0 <= i < n && MakesAt(kind, statements, i, p) && SameElement(statements, i, n, p);
        SameElementLater(statements, i, last, n, p);
      }
    }
  }

  // ----- Exactly which statements are refused -----

  lemma {:induction false} RunToPrefix(statements: seq<Statement>, s: Statement, n: nat)
    requires n <= |statements|
    ensures RunTo(statements + [s], n) == RunTo(statements, n)
    ensures CurrentPath(statements + [s], n) == CurrentPath(statements, n)
  {
    hide Step;
    if n > 0 {
      RunToPrefix(statements, s, n - 1);
    }
  }

  lemma RunAppends(statements: seq<Statement>, s: Statement)
    requires Run(statements).Ok?
    ensures Run(statements + [s]) == Step(Run(statements).value, s)
  {
    hide Step;
    RunToPrefix(statements, s, |statements|);
  }

  /** The names of a document with one more statement are names for the document and for that statement. */
  lemma NamesOfLonger(statements: seq<Statement>, s: Statement) returns (u: iset<Path>)
    requires Run(statements).Ok? && CollisionFree(statements + [s])
    ensures DocumentNamed(u, statements) && StatementNamed(u, Run(statements).value.currentPath, s) && Names(u)
  {
    hide Names, StatementNamed, CollisionFree, Used, RunTo, CurrentPath;
    var more := statements + [s];
    u := Used(more);
    UsedNamed(more);
    forall i | 0 <= i < |statements| ensures StatementNamed(u, CurrentPath(statements, i), statements[i]) {
      RunToPrefix(statements, s, i);
      assert StatementNamed(u, CurrentPath(more, i), more[i]);
    }
    RunToPrefix(statements, s, |statements|);
    CurrentIs(statements, |statements|);
    assert StatementNamed(u, CurrentPath(more, |statements|), more[|statements|]);
  }

  predicate StandingPrefix(statements: seq<Statement>, p: Path) {
    exists i :: 1 <= i <= |p| && Standing(Closed, statements, p[..i])
  }

  predicate UsedAsArray(statements: seq<Statement>, p: KeyPath) {
    exists i :: 0 <= i < |statements| && statements[i] == ArrayHeader(p)
  }

  lemma {:induction false} EpochMeans(statements: seq<Statement>, n: nat, p: KeyPath)
    requires n <= |statements|
    ensures Epoch(statements, n, p) > 0 <==> exists i :: 0 <= i < n && statements[i] == ArrayHeader(p)
  {
    if n > 0 {
      EpochMeans(statements, n - 1, p);
    }
  }

  lemma ClosedPrefixIff(u: iset<Path>, statements: seq<Statement>, p: KeyPath)
    requires DocumentNamed(u, statements) && Run(statements).Ok? && p in u
    ensures ClosedPrefix(p, Run(statements).value.closed, Run(statements).value.epochs) <==> StandingPrefix(statements, p)
  {
    hide DocumentNamed, RunTo, Run, MarkedNow, Standing;
    var st := Run(statements).value;
    NamesOf(u, statements);
    forall i | 1 <= i <= |p| ensures MarkedNow(st.closed, p[..i], st.epochs) <==> Standing(Closed, statements, p[..i]) {
      PrefixNamed(u, p[..i], p);
      RecordedIff(u, Closed, statements, p[..i]);
    }
  }

  /**
   A header is refused exactly when its path was used as an array of tables before, whatever the element; when it was
   headed or gone through by a dotted key, or it or a prefix was closed, under the array element that is last now; or
   when a value stands in its way.
   */
  lemma HeaderRefusedIff(statements: seq<Statement>, p: KeyPath)
    requires Run(statements).Ok? && CollisionFree(statements + [Header(p)])
    ensures Run(statements + [Header(p)]).Err? <==>
              || UsedAsArray(statements, p) || Standing(Headed, statements, p) || Standing(Dotted, statements, p)
              || StandingPrefix(statements, p)
              || EnsureTable(Run(statements).value.nodes, 0, p).Err?
  {
    hide DocumentNamed, CollisionFree, Names, RunTo, MarkedNow, ClosedPrefix, Standing, StandingPrefix, EnsureTable, Encode;
    var u := NamesOfLonger(statements, Header(p));
    RunAppends(statements, Header(p));
    RecordedIff(u, Headed, statements, p);
    RecordedIff(u, Dotted, statements, p);
    ClosedPrefixIff(u, statements, p);
    EpochsCount(u, statements, |statements|, p);
    EpochMeans(statements, |statements|, p);
  }

  /**
   A header of an array of tables is refused exactly when its path was headed before, whatever the element; when it was
   gone through by a dotted key, or it or a prefix was closed, under the array element that is last now; or when the
   tree holds something else there.
   */
  lemma ArrayHeaderRefusedIff(statements: seq<Statement>, p: KeyPath)
    requires Run(statements).Ok? && CollisionFree(statements + [ArrayHeader(p)])
    ensures Run(statements + [ArrayHeader(p)]).Err? <==>
              || Ever(Headed, statements, p) || Standing(Dotted, statements, p) || StandingPrefix(statements, p)
              || AppendArrayTable(Run(statements).value.nodes, p).Err?
  {
    hide DocumentNamed, CollisionFree, Names, RunTo, MarkedNow, ClosedPrefix, Standing, StandingPrefix, AppendArrayTable, Encode,
      Ever;
    var u := NamesOfLonger(statements, ArrayHeader(p));
    RunAppends(statements, ArrayHeader(p));
    RecordedIff(u, Headed, statements, p);
    RecordedIff(u, Dotted, statements, p);
    ClosedPrefixIff(u, statements, p);
  }

  /** A table a dotted key may not go through: headed before, whatever the element, or closed under the last one. */
  predicate DottedBarred(statements: seq<Statement>, full: Path, i: nat)
    decreases |full| - i
  {
    i < |full| && (Ever(Headed, statements, full[..i]) || Standing(Closed, statements, full[..i])
                   || DottedBarred(statements, full, i + 1))
  }

  lemma {:induction false} CheckDottedIff(u: iset<Path>, statements: seq<Statement>, full: Path, i: nat)
    requires DocumentNamed(u, statements) && Run(statements).Ok? && i >= 1 && (i < |full| ==> full[..|full| - 1] in u)
    ensures var st := Run(statements).value;
      CheckDotted(st.declared, st.closed, full, i, st.epochs).Err? <==> DottedBarred(statements, full, i)
    decreases |full| - i
  {
    hide DocumentNamed, RunTo, Run, MarkedNow, Standing, Ever, Encode;
    if i < |full| {
      NamesOf(u, statements);
      PrefixNamed(u, full[..i], full[..|full| - 1]);
      RecordedIff(u, Headed, statements, full[..i]);
      RecordedIff(u, Closed, statements, full[..i]);
      CheckDottedIff(u, statements, full, i + 1);
    }
  }

  /**
   An assignment is refused exactly when its dotted key goes through a table that was headed before, whatever the
   element, or closed under the array element that is last now; or when the tree has no place for it.
   */
  lemma KeyValueRefusedIff(statements: seq<Statement>, key: KeyPath, value: Literal)
    requires Run(statements).Ok? && CollisionFree(statements + [KeyValue(key, value)])
    ensures var st := Run(statements).value;
      var current := CurrentPath(statements, |statements|);
      Run(statements + [KeyValue(key, value)]).Err? <==>
        DottedBarred(statements, current + key, |current| + 1) || AssignUnique(st.nodes, st.current, key, value).Err?
  {
    hide DocumentNamed, CollisionFree, Names, RunTo, AssignUnique, MarkClosed, MarkDotted, CurrentPath;
    var u := NamesOfLonger(statements, KeyValue(key, value));
    RunAppends(statements, KeyValue(key, value));
    CurrentIs(statements, |statements|);
    var st := Run(statements).value;
    var full := st.currentPath + key;
    assert full[..|full| - 1] == st.currentPath + key[..|key| - 1];
    CheckDottedIff(u, statements, full, |st.currentPath| + 1);
  }

  /** The walk along `p` runs off the tree: some segment of `p` is not bound where the walk has come to. */
  predicate LeavesFree(nodes: Store, cur: nat, p: Path)
    decreases |p|
  {
    p != [] && cur < |nodes| && (p[0] !in nodes[cur] || (Through(nodes[cur][p[0]]).Some? &&
                                  LeavesFree(nodes, Through(nodes[cur][p[0]]).value, p[1..])))
  }

  /** The tree itself has room for a path it leaves free. */
  lemma {:induction false} FreeIsOpen(nodes: Store, cur: nat, p: KeyPath)
    requires Wf(nodes) && cur < |nodes| && LeavesFree(nodes, cur, p)
    ensures Resolve(nodes, cur, p).None? && EnsureTable(nodes, cur, p).Ok?
    decreases |p|
  {
    if p[0] !in nodes[cur] {
      EnsureFromEmpty(NewTable(nodes, cur, p[0]), |nodes|, p[1..]);
    } else {
      FreeIsOpen(nodes, Through(nodes[cur][p[0]]).value, p[1..]);
    }
  }

  /** A header whose path the tree leaves free is refused exactly for what statements before it did. */
  lemma FreeHeaderRefusedIff(statements: seq<Statement>, p: KeyPath)
    requires Run(statements).Ok? && CollisionFree(statements + [Header(p)])
    requires LeavesFree(Run(statements).value.nodes, 0, p)
    ensures Run(statements + [Header(p)]).Err? <==>
              || UsedAsArray(statements, p) || Standing(Headed, statements, p) || Standing(Dotted, statements, p)
              || StandingPrefix(statements, p)
  {
    hide RunTo, CollisionFree, Standing, StandingPrefix, EnsureTable, LeavesFree;
    HeaderRefusedIff(statements, p);
    FreeIsOpen(Run(statements).value.nodes, 0, p);
  }

  /** A walk that does not end at a table has run off the tree or into a value. */
  lemma {:induction false} WalkEndsIff(nodes: Store, cur: nat, p: KeyPath)
    requires Wf(nodes) && cur < |nodes|
    ensures Resolve(nodes, cur, p).None? <==> LeavesFree(nodes, cur, p) || EnsureTable(nodes, cur, p).Err?
    decreases |p|
  {
    if p[0] !in nodes[cur] {
      FreeIsOpen(nodes, cur, p);
    } else if Through(nodes[cur][p[0]]).Some? {
      assert WfEntry(nodes[cur][p[0]], |nodes|);
      var next := Through(nodes[cur][p[0]]).value;
      if |p| > 1 {
        WalkEndsIff(nodes, next, p[1..]);
      }
    }
  }

  lemma {:induction false} FreshEnd(nodes: Store, cur: nat, p: Path)
    requires Wf(nodes) && cur < |nodes| && nodes[cur] == map[]
    ensures EnsureTable(nodes, cur, p).Ok?
    ensures EnsureTable(nodes, cur, p).value.nodes[EnsureTable(nodes, cur, p).value.at] == map[]
    decreases |p|
  {
    if p != [] {
      FreshEnd(NewTable(nodes, cur, p[0]), |nodes|, p[1..]);
    }
  }

  /** The tree has room for an array of tables at a path it leaves free, and binds nothing there yet. */
  lemma {:induction false} FreeTakesArray(nodes: Store, cur: nat, p: KeyPath)
    requires Wf(nodes) && cur < |nodes| && LeavesFree(nodes, cur, p)
    ensures EnsureTable(nodes, cur, p[..|p| - 1]).Ok?
    ensures var place := EnsureTable(nodes, cur, p[..|p| - 1]).value; p[|p| - 1] !in place.nodes[place.at]
    decreases |p|
  {
    var front := p[..|p| - 1];
    if |p| > 1 {
      assert front[1..] == p[1..][..|p| - 2];
      if p[0] !in nodes[cur] {
        FreshEnd(NewTable(nodes, cur, p[0]), |nodes|, front[1..]);
      } else {
        assert WfEntry(nodes[cur][p[0]], |nodes|);
        FreeTakesArray(nodes, Through(nodes[cur][p[0]]).value, p[1..]);
      }
    }
  }

  /** An array of tables at a path the tree leaves free is refused exactly for what statements before it did. */
  lemma FreeArrayHeaderRefusedIff(statements: seq<Statement>, p: KeyPath)
    requires Run(statements).Ok? && CollisionFree(statements + [ArrayHeader(p)])
    requires LeavesFree(Run(statements).value.nodes, 0, p)
    ensures Run(statements + [ArrayHeader(p)]).Err? <==>
              Ever(Headed, statements, p) || Standing(Dotted, statements, p) || StandingPrefix(statements, p)
  {
    hide RunTo, CollisionFree, Standing, StandingPrefix, Ever, EnsureTable, LeavesFree;
    ArrayHeaderRefusedIff(statements, p);
    FreeTakesArray(Run(statements).value.nodes, 0, p);
  }
}
