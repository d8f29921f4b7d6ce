/**
 Where the bookkeeping and the tree part ways: keys that hold NUL defeat the check for duplicates, and marks kept
 without regard to the array element they were made under refuse documents whose tree has nothing to redefine.
 */
module TableLimits {
  import opened Results
  import opened Decimal
  import opened Paths
  import opened TableMachine
  import opened TableSoundness
  import opened TableTheorems
  import opened TableRefusals

  lemma EncodeUnfolds(p: Segment, q: Segment, r: Segment)
    ensures Encode([p]) == p && Encode([p, q]) == p + "\0" + q && Encode([p, q, r]) == p + "\0" + (q + "\0" + r)
  {
    assert [p, q][1..] == [q] && [p, q, r][1..] == [q, r];
    assert Encode([q, r]) == q + "\0" + r;
  }

  lemma {:induction false} ContextFromNone(p: Path, i: nat)
    requires i <= |p|
    ensures ContextFrom(p, i, map[]) == ""
  {
    if i > 0 {
      ContextFromNone(p, i - 1);
    }
  }

  // ----- Keys whose records collide -----

  /** The tree after `[p]` alone: one table under the other. */
  predicate Chain(nodes: Store, p: Path) {
    && |nodes| == |p| + 1 && nodes[|p|] == map[]
    && forall i :: 0 <= i < |p| ==> nodes[i] == map[p[i] := Table(i + 1)]
  }

  lemma {:induction false} EnsureChain(nodes: Store, p: Path, k: nat)
    requires k <= |p| && Chain(nodes, p[..k]) && Wf(nodes)
    ensures EnsureTable(nodes, k, p[k..]).Ok? && EnsureTable(nodes, k, p[k..]).value.at == |p|
    ensures Chain(EnsureTable(nodes, k, p[k..]).value.nodes, p)
    decreases |p| - k
  {
    if k == |p| {
      assert p[..k] == p;
    } else {
      var more := NewTable(nodes, k, p[k]);
      assert more[k] == map[p[k] := Table(k + 1)];
      assert Chain(more, p[..k + 1]);
      assert p[k..][1..] == p[k + 1..];
      EnsureChain(more, p, k + 1);
    }
  }

  function AfterHeader(p: KeyPath, nodes: Store): State {
    State(nodes, |p|, p, map[Encode(p) := ""], map[], map[], {}, map[])
  }

  lemma HeaderFirst(p: KeyPath) returns (nodes: Store)
    ensures Chain(nodes, p) && Step(Initial, Header(p)) == Ok(AfterHeader(p, nodes)) && Valid(AfterHeader(p, nodes))
  {
    ContextFromNone(p, |p|);
    assert p[0..] == p && p[..0] == [];
    EnsureChain(Initial.nodes, p, 0);
    nodes := EnsureTable(Initial.nodes, 0, p).value.nodes;
    assert Initial.declared[Encode(p) := ""] == map[Encode(p) := ""];
  }

  /** A path that is no prefix of the one table's path leaves the chain. */
  lemma {:induction false} ChainLeaves(nodes: Store, p: Path, q: KeyPath, k: nat)
    requires k <= |p| && Chain(nodes, p) && !(q <= p[k..])
    ensures LeavesFree(nodes, k, q)
    decreases |p| - k
  {
    if k < |p| && q[0] == p[k] {
      assert Through(nodes[k][q[0]]) == Some(k + 1);
      assert p[k..] == [p[k]] + p[k + 1..] && q == [q[0]] + q[1..];
      ChainLeaves(nodes, p, q[1..], k + 1);
    }
  }

  /** Whatever else has been added, the walk along the chain ends where it did. */
  lemma {:induction false} EnsureAlong(nodes: Store, p: Path, k: nat)
    requires Wf(nodes) && k <= |p| < |nodes|
    requires forall i :: 0 <= i < |p| ==> p[i] in nodes[i] && nodes[i][p[i]] == Table(i + 1)
    ensures EnsureTable(nodes, k, p[k..]) == Ok(Place(nodes, |p|))
    decreases |p| - k
  {
    if k < |p| {
      assert p[k..][1..] == p[k + 1..];
      EnsureAlong(nodes, p, k + 1);
    }
  }

  lemma {:induction false} EncodeLonger(p: Path, i: nat)
    requires 1 <= i < |p|
    ensures |Encode(p[..i])| < |Encode(p[..i + 1])|
    decreases |p|
  {
    var a, b := p[..i], p[..i + 1];
    if i > 1 {
      assert a[1..] == p[1..][..i - 1] && b[1..] == p[1..][..i];
      EncodeLonger(p[1..], i - 1);
    }
  }

  lemma {:induction false} EncodeIncreases(p: Path, i: nat, j: nat)
    requires 1 <= i < j <= |p|
    ensures |Encode(p[..i])| < |Encode(p[..j])|
  {
    EncodeLonger(p, j - 1);
    if i < j - 1 {
      EncodeIncreases(p, i, j - 1);
    }
  }

  /** `q` shares the record of a proper prefix of `p` it is not equal to. */
  ghost predicate CollidesWithPrefix(p: KeyPath, q: KeyPath) {
    exists i :: 1 <= i < |p| && Encode(p[..i]) == Encode(q) && q != p[..i]
  }

  lemma CollidingIsNoPrefix(p: KeyPath, q: KeyPath)
    requires CollidesWithPrefix(p, q)
    ensures !(q <= p) && Encode(q) != Encode(p)
  {
    var i :| 1 <= i < |p| && Encode(p[..i]) == Encode(q) && q != p[..i];
    assert p[..|p|] == p;
    EncodeIncreases(p, i, |p|);
    if q <= p {
      var j := |q|;
      assert p[..j] == q;
      if i < j {
        EncodeIncreases(p, i, j);
      } else if j < i {
        EncodeIncreases(p, j, i);
      }
    }
  }

  lemma {:induction false} ContextOfOneArray(p: Path, i: nat, q: KeyPath)
    requires i <= |p|
    ensures ContextFrom(p, i, map[Encode(q) := 1]) == "" <==> forall j :: 1 <= j <= i ==> Encode(p[..j]) != Encode(q)
  {
    if i > 0 {
      ContextOfOneArray(p, i - 1, q);
    }
  }

  /** The array of tables that `[[q]]` begins beside the chain leaves the chain as it was. */
  lemma AppendBeside(nodes: Store, p: Path, q: KeyPath)
    requires Chain(nodes, p) && Wf(nodes) && !(q <= p)
    ensures AppendArrayTable(nodes, q).Ok?
    ensures var next := AppendArrayTable(nodes, q).value.nodes;
      Wf(next) && EnsureTable(next, 0, p) == Ok(Place(next, |p|))
  {
    hide LeavesFree, EnsureTable;
    var name := q[|q| - 1];
    assert p[0..] == p;
    ChainLeaves(nodes, p, q, 0);
    FreeTakesArray(nodes, 0, q);
    var parent := EnsureTable(nodes, 0, q[..|q| - 1]).value;
    var next := AppendTable(parent.nodes, parent.at, name, []);
    assert AppendArrayTable(nodes, q) == Ok(Place(next, |parent.nodes|));
    forall i | 0 <= i < |p| ensures p[i] in next[i] && next[i][p[i]] == Table(i + 1) {
      assert p[i] in nodes[i] && parent.nodes[i][p[i]] == nodes[i][p[i]];
    }
    EnsureAlong(next, p, 0);
  }

  lemma ArrayBeside(p: KeyPath, q: KeyPath, nodes: Store)
    requires Chain(nodes, p) && !(q <= p) && Encode(q) != Encode(p) && Valid(AfterHeader(p, nodes))
    ensures Step(AfterHeader(p, nodes), ArrayHeader(q)).Ok?
    ensures var next := Step(AfterHeader(p, nodes), ArrayHeader(q)).value;
      && Valid(next) && next.declared == map[Encode(p) := ""] && next.dotted == map[] && next.closed == map[]
      && next.arrays == {Encode(q)} && next.epochs == map[Encode(q) := 1]
      && EnsureTable(next.nodes, 0, p) == Ok(Place(next.nodes, |p|))
  {
    hide Encode, EnsureTable, AppendArrayTable, Chain, Wf;
    var st := AfterHeader(p, nodes);
    AppendBeside(nodes, p, q);
    assert st.arrays + {Encode(q)} == {Encode(q)} && Bump(st.epochs, Encode(q)) == map[Encode(q) := 1];
  }

  /** Where the tree has `[p]` alone, `[[q]]` is refused for a prefix of `p`. */
  lemma {:induction false} ChainTakesNoArray(nodes: Store, p: Path, q: KeyPath, k: nat)
    requires k <= |p| && Chain(nodes, p) && Wf(nodes) && q <= p[k..]
    ensures EnsureTable(nodes, k, q[..|q| - 1]) == Ok(Place(nodes, k + |q| - 1)) && nodes[k + |q| - 1][q[|q| - 1]] == Table(k + |q|)
    decreases |q|
  {
    hide Wf, Encode;
    assert q[0] == p[k..][0] == p[k];
    if |q| > 1 {
      var front := q[..|q| - 1];
      assert front[1..] == q[1..][..|q| - 2] && q[1..] <= p[k..][1..] == p[k + 1..];
      ChainTakesNoArray(nodes, p, q[1..], k + 1);
    }
  }

  lemma ArrayOnChain(p: KeyPath, q: KeyPath, nodes: Store)
    requires Chain(nodes, p) && q <= p && Valid(AfterHeader(p, nodes))
    ensures Step(AfterHeader(p, nodes), ArrayHeader(q)).Err?
  {
    assert p[0..] == p;
    ChainTakesNoArray(nodes, p, q, 0);
  }

  /** `[p]`, `[[q]]`, `[p]` */
  function HeaderAgain(p: KeyPath, q: KeyPath): seq<Statement> {
    [Header(p), ArrayHeader(q), Header(p)]
  }

  lemma RunOfThree(a: Statement, b: Statement, c: Statement, first: State)
    requires Step(Initial, a) == Ok(first) && Valid(first)
    ensures var second := Step(first, b);
      Run([a, b, c]) == if second.Ok? then Step(second.value, c) else second
    ensures Run([a, b, c]).Ok? ==> StateAt([a, b, c], 1) == first && StateAt([a, b, c], 3) == Run([a, b, c]).value
  {
    hide Step;
    var s := [a, b, c];
    assert RunTo(s, 0) == Ok(Initial);
    assert RunTo(s, 1) == Ok(first);
    assert RunTo(s, 2) == Step(first, b);
  }

  /**
   What a collision breaks: the check for duplicate headers. Between two headers of one table a header of an array of
   tables resets the check exactly when its path shares the record of a proper prefix of theirs without being it; then
   the document is accepted and both headers open the same table.
   */
  lemma CollisionDefeatsDuplicateCheckIff(p: KeyPath, q: KeyPath)
    ensures Run(HeaderAgain(p, q)).Ok? <==> CollidesWithPrefix(p, q)
    ensures Run(HeaderAgain(p, q)).Ok? ==> TableAt(HeaderAgain(p, q), 0) == TableAt(HeaderAgain(p, q), 2)
  {
    hide Step, CollidesWithPrefix, Encode;
    var nodes := HeaderFirst(p);
    var first := AfterHeader(p, nodes);
    RunOfThree(Header(p), ArrayHeader(q), Header(p), first);
    if CollidesWithPrefix(p, q) {
      CollidingIsNoPrefix(p, q);
    }
    if q <= p {
      ArrayOnChain(p, q, nodes);
    } else if Encode(q) == Encode(p) {
      DeclaredRefusesArray(p, q, nodes);
    } else {
      ArrayBeside(p, q, nodes);
      HeaderReopens(p, q, Step(first, ArrayHeader(q)).value);
    }
  }

  lemma DeclaredRefusesArray(p: KeyPath, q: KeyPath, nodes: Store)
    requires Encode(q) == Encode(p) && Valid(AfterHeader(p, nodes))
    ensures Step(AfterHeader(p, nodes), ArrayHeader(q)).Err?
  {
  }

  lemma HeaderReopens(p: KeyPath, q: KeyPath, st: State)
    requires Valid(st) && st.declared == map[Encode(p) := ""] && st.dotted == map[] && st.closed == map[]
    requires st.arrays == {Encode(q)} && st.epochs == map[Encode(q) := 1]
    requires EnsureTable(st.nodes, 0, p) == Ok(Place(st.nodes, |p|)) && !(q <= p) && Encode(q) != Encode(p)
    ensures Step(st, Header(p)).Ok? <==> CollidesWithPrefix(p, q)
    ensures Step(st, Header(p)).Ok? ==> Step(st, Header(p)).value.current == |p|
  {
    hide Encode;
    ContextOfOneArray(p, |p|, q);
    assert p[..|p|] == p;
  }

  lemma {:induction false} EnsureFaults(nodes: Store, cur: nat, path: Path)
    requires Wf(nodes) && cur < |nodes|
    ensures EnsureTable(nodes, cur, path) != Err(DuplicateTable)
    decreases |path|
  {
    if path != [] {
      if path[0] !in nodes[cur] {
        EnsureFaults(NewTable(nodes, cur, path[0]), |nodes|, path[1..]);
      } else if Through(nodes[cur][path[0]]).Some? {
        assert WfEntry(nodes[cur][path[0]], |nodes|);
        EnsureFaults(nodes, Through(nodes[cur][path[0]]).value, path[1..]);
      }
    }
  }

  /** Of two headers alone the second is a duplicate exactly when their paths collide, whatever the tree says. */
  lemma SecondHeaderDuplicateIff(p: KeyPath, q: KeyPath)
    ensures Run([Header(p), Header(q)]) == Err(DuplicateTable) <==> Pieces(p) == Pieces(q)
  {
    hide EnsureTable;
    EncodeCollidesIff(p, q);
    var nodes := HeaderFirst(p);
    var st, s := AfterHeader(p, nodes), [Header(p), Header(q)];
    assert RunTo(s, 0) == Ok(Initial);
    assert RunTo(s, 1) == Ok(st);
    ContextFromNone(q, |q|);
    EnsureFaults(st.nodes, 0, q);
    assert Run(s) == Step(st, Header(q));
  }

  /** `[x.y.z]`, `[["x\0y"]]`, `[x.y.z]` */
  const NUL_DOCUMENT := HeaderAgain(["x", "y", "z"], ["x\0y"])

  /** Keys that hold NUL can collide with other keys, and here they do: two headers open one table. */
  lemma NulKeysDefeatDuplicateCheck()
    ensures Run(NUL_DOCUMENT).Ok? && TableAt(NUL_DOCUMENT, 0) == TableAt(NUL_DOCUMENT, 2)
  {
    hide Run, TableAt;
    var p: KeyPath, q: KeyPath := ["x", "y", "z"], ["x\0y"];
    EncodeUnfolds("x", "y", "z");
    EncodeUnfolds("x\0y", "", "");
    assert p[..2] == ["x", "y"] && "x" + "\0" + "y" == "x\0y";
    assert |q| != |p[..2]|;
    assert CollidesWithPrefix(p, q);
    CollisionDefeatsDuplicateCheckIff(p, q);
  }

  // ----- Documents refused without cause -----

  lemma Lengths(a: Segment, b: Segment, c: Segment)
    ensures Encode([a]) == a && |Encode([a, b])| == |a| + 1 + |b| && |Encode([a, b, c])| == |a| + |b| + |c| + 2
  {
    EncodeUnfolds(a, b, c);
  }

  /** `[[a]]`, `[[a.b]]`, `[a.b.c]`, `[[a]]` */
  function SecondElement(a: Segment, b: Segment, c: Segment): seq<Statement> {
    [ArrayHeader([a]), ArrayHeader([a, b]), Header([a, b, c]), ArrayHeader([a])]
  }

  function AfterFirst(a: Segment): State {
    Initial.(nodes := [map[a := Tables([1])], map[]], current := 1, currentPath := [a], arrays := {a},
             epochs := map[a := 1])
  }

  function AfterSecond(a: Segment, b: Segment): State {
    AfterFirst(a).(nodes := [map[a := Tables([1])], map[b := Tables([2])], map[]], current := 2, currentPath := [a, b],
                   arrays := {a, Encode([a, b])}, epochs := map[a := 1, Encode([a, b]) := 1])
  }

  function AfterThird(a: Segment, b: Segment, c: Segment): State {
    AfterSecond(a, b).(nodes := [map[a := Tables([1])], map[b := Tables([2])], map[c := Table(3)], map[]], current := 3,
                       currentPath := [a, b, c], declared := map[Encode([a, b, c]) := Encode([a, b]) + "#" + OfNat(1)])
  }

  function AfterFourth(a: Segment, b: Segment, c: Segment): State {
    AfterThird(a, b, c).(nodes := [map[a := Tables([1, 4])], map[b := Tables([2])], map[c := Table(3)], map[], map[]],
                         current := 4, currentPath := [a], epochs := map[a := 2, Encode([a, b]) := 1])
  }

  lemma Appended(nodes: Store, at: nat, name: Segment, before: seq<nat>, after: seq<nat>)
    requires at < |nodes| && before + [|nodes|] == after
    ensures AppendTable(nodes, at, name, before) == nodes[at := nodes[at][name := Tables(after)]] + [map[]]
  {
  }

  lemma FirstStep(a: Segment)
    ensures Step(Initial, ArrayHeader([a])) == Ok(AfterFirst(a))
  {
    Lengths(a, a, a);
    assert [a][..0] == [];
    assert {} + {a} == {a};
    Appended(Initial.nodes, 0, a, [], [1]);
    assert AppendTable(Initial.nodes, 0, a, []) == AfterFirst(a).nodes;
    assert Bump(map[], a) == map[a := 1];
  }

  lemma SecondStep(a: Segment, b: Segment)
    ensures Valid(AfterFirst(a)) && Step(AfterFirst(a), ArrayHeader([a, b])) == Ok(AfterSecond(a, b))
  {
    Lengths(a, b, b);
    var st, path: KeyPath := AfterFirst(a), [a, b];
    assert path[..1] == [a] && [a][1..] == [];
    assert EnsureTable(st.nodes, 0, [a]) == Ok(Place(st.nodes, 1));
    Appended(st.nodes, 1, b, [], [2]);
    assert AppendTable(st.nodes, 1, b, []) == AfterSecond(a, b).nodes;
    assert {a} + {Encode(path)} == AfterSecond(a, b).arrays;
  }

  lemma ContextInSecond(a: Segment, b: Segment, c: Segment, epochs: Epochs)
    requires Encode([a, b]) in epochs && epochs[Encode([a, b])] == 1 && epochs.Keys == {a, Encode([a, b])}
    ensures Context([a, b, c], epochs) == Encode([a, b]) + "#" + OfNat(1)
  {
    Lengths(a, b, c);
    var path: Path := [a, b, c];
    assert path[..3] == path && path[..2] == [a, b];
    assert Encode(path) !in epochs.Keys;
    assert ContextFrom(path, 2, epochs) == Encode([a, b]) + "#" + OfNat(1);
  }

  lemma ThirdStep(a: Segment, b: Segment, c: Segment)
    ensures Valid(AfterSecond(a, b)) && Step(AfterSecond(a, b), Header([a, b, c])) == Ok(AfterThird(a, b, c))
  {
    hide EnsureTable, Encode;
    Lengths(a, b, c);
    ContextInSecond(a, b, c, AfterSecond(a, b).epochs);
    ThirdTable(a, b, c);
  }

  lemma ThirdTable(a: Segment, b: Segment, c: Segment)
    ensures var nodes := AfterSecond(a, b).nodes;
      Wf(nodes) && EnsureTable(nodes, 0, [a, b, c]) == Ok(Place(AfterThird(a, b, c).nodes, 3))
  {
    var nodes, path: KeyPath := AfterSecond(a, b).nodes, [a, b, c];
    var made := NewTable(nodes, 2, c);
    assert path[1..] == [b, c] && [b, c][1..] == [c] && [c][1..] == [];
    assert made == AfterThird(a, b, c).nodes;
    NewTableGrows(nodes, 2, c);
    assert EnsureTable(made, 3, []) == Ok(Place(made, 3));
    assert EnsureTable(nodes, 2, [c]) == Ok(Place(made, 3));
    assert EnsureTable(nodes, 1, [b, c]) == Ok(Place(made, 3));
  }

  lemma FourthStep(a: Segment, b: Segment, c: Segment)
    ensures Valid(AfterThird(a, b, c)) && Step(AfterThird(a, b, c), ArrayHeader([a])) == Ok(AfterFourth(a, b, c))
  {
    Lengths(a, b, c);
    var st := AfterThird(a, b, c);
    assert [a][..0] == [];
    Appended(st.nodes, 0, a, [1], [1, 4]);
    assert st.nodes[0][a := Tables([1, 4])] == map[a := Tables([1, 4])];
    assert AppendTable(st.nodes, 0, a, [1]) == AfterFourth(a, b, c).nodes;
    assert Bump(st.epochs, a) == AfterFourth(a, b, c).epochs;
    assert {a, Encode([a, b])} + {a} == st.arrays;
  }

  /**
   In the second element of an array of tables the paths of the first are still refused, whatever the keys: `[a.b]` as
   a redefined array of tables, `[a.b.c]` as a duplicate, although the tree holds nothing at either path.
   */
  lemma StaleMarksRefuse(a: Segment, b: Segment, c: Segment)
    ensures var before := SecondElement(a, b, c);
      && Run(before).Ok? && Resolve(Run(before).value.nodes, 0, [a, b]).None?
      && Run(before + [Header([a, b])]) == Err(RedefinesArrayTable)
      && Run(before + [Header([a, b, c])]) == Err(DuplicateTable)
  {
    hide Step;
    var before := SecondElement(a, b, c);
    FirstStep(a);
    SecondStep(a, b);
    ThirdStep(a, b, c);
    FourthStep(a, b, c);
    assert RunTo(before, 0) == Ok(Initial);
    assert RunTo(before, 1) == Ok(AfterFirst(a));
    assert RunTo(before, 2) == Ok(AfterSecond(a, b));
    assert RunTo(before, 3) == Ok(AfterThird(a, b, c));
    assert RunTo(before, 4) == Ok(AfterFourth(a, b, c));
    LastRefused(a, b, c);
    RunAppends(before, Header([a, b]));
    RunAppends(before, Header([a, b, c]));
    assert [a, b][1..] == [b];
  }

  lemma LastRefused(a: Segment, b: Segment, c: Segment)
    ensures Valid(AfterFourth(a, b, c))
    ensures Step(AfterFourth(a, b, c), Header([a, b])) == Err(RedefinesArrayTable)
    ensures Step(AfterFourth(a, b, c), Header([a, b, c])) == Err(DuplicateTable)
  {
    Lengths(a, b, c);
    ContextInSecond(a, b, c, AfterFourth(a, b, c).epochs);
  }

  // ----- The two checks that look at no context -----

  /** `[[a]]`, `[a.b]`, `[[a]]` */
  function HeadedElement(a: Segment, b: Segment): seq<Statement> {
    [ArrayHeader([a]), Header([a, b]), ArrayHeader([a])]
  }

  function AfterHeadedFirst(a: Segment, b: Segment): State {
    AfterFirst(a).(nodes := [map[a := Tables([1])], map[b := Table(2)], map[]], current := 2, currentPath := [a, b],
                   declared := map[Encode([a, b]) := Encode([a]) + "#" + OfNat(1)])
  }

  function AfterHeadedSecond(a: Segment, b: Segment): State {
    AfterHeadedFirst(a, b).(nodes := [map[a := Tables([1, 3])], map[b := Table(2)], map[], map[]], current := 3,
                            currentPath := [a], epochs := map[a := 2])
  }

  lemma ContextInFirst(a: Segment, b: Segment)
    ensures Context([a, b], map[a := 1]) == Encode([a]) + "#" + OfNat(1)
  {
    Lengths(a, b, b);
    var path: Path, epochs := [a, b], map[a := 1];
    assert path[..2] == path && path[..1] == [a];
    assert ContextFrom(path, 1, epochs) == Encode([a]) + "#" + OfNat(1);
  }

  lemma HeadInFirst(a: Segment, b: Segment)
    ensures Valid(AfterFirst(a)) && Step(AfterFirst(a), Header([a, b])) == Ok(AfterHeadedFirst(a, b))
  {
    Lengths(a, b, b);
    ContextInFirst(a, b);
    var nodes, path: KeyPath := AfterFirst(a).nodes, [a, b];
    var made := NewTable(nodes, 1, b);
    assert path[1..] == [b] && [b][1..] == [];
    assert made == AfterHeadedFirst(a, b).nodes;
    assert EnsureTable(nodes, 1, [b]) == Ok(Place(made, 2));
    assert EnsureTable(nodes, 0, path) == Ok(Place(made, 2));
    assert AfterFirst(a).declared[Encode(path) := Encode([a]) + "#" + OfNat(1)] == AfterHeadedFirst(a, b).declared;
  }

  lemma SecondAfterHeaded(a: Segment, b: Segment)
    ensures Valid(AfterHeadedFirst(a, b)) && Step(AfterHeadedFirst(a, b), ArrayHeader([a])) == Ok(AfterHeadedSecond(a, b))
  {
    Lengths(a, b, b);
    var st := AfterHeadedFirst(a, b);
    assert [a][..0] == [];
    Appended(st.nodes, 0, a, [1], [1, 3]);
    assert st.nodes[0][a := Tables([1, 3])] == map[a := Tables([1, 3])];
    assert AppendTable(st.nodes, 0, a, [1]) == AfterHeadedSecond(a, b).nodes;
    assert Bump(st.epochs, a) == AfterHeadedSecond(a, b).epochs;
    assert {a} + {a} == st.arrays;
  }

  /** The tree has room for `[[a.b]]` and for `b.c = v` in the second element. */
  lemma SecondHasRoom(a: Segment, b: Segment, c: Segment, v: Literal)
    ensures var st := AfterHeadedSecond(a, b);
      Valid(st) && LeavesFree(st.nodes, 0, [a, b]) && AssignUnique(st.nodes, st.current, [b, c], v).Ok?
  {
    var st := AfterHeadedSecond(a, b);
    assert [a, b][1..] == [b] && [b, c][1..] == [c];
    assert Through(st.nodes[0][a]) == Some(3) && b !in st.nodes[3];
    AssignFromEmpty(st.nodes, 3, [b, c], v);
  }

  /**
   What was headed in the first element of an array of tables can be neither an array of tables in the second nor the
   table of a dotted key there, although the tree has room for both.
   */
  lemma StaleHeadersRefuse(a: Segment, b: Segment, c: Segment, v: Literal)
    ensures var before := HeadedElement(a, b);
      && Run(before).Ok? && LeavesFree(Run(before).value.nodes, 0, [a, b])
      && AssignUnique(Run(before).value.nodes, Run(before).value.current, [b, c], v).Ok?
      && Run(before + [ArrayHeader([a, b])]) == Err(RedefinesTableAsArray)
      && Run(before + [KeyValue([b, c], v)]) == Err(ExtendsExplicitTable)
  {
    hide Step, LeavesFree, AssignUnique;
    var before := HeadedElement(a, b);
    FirstStep(a);
    HeadInFirst(a, b);
    SecondAfterHeaded(a, b);
    assert RunTo(before, 0) == Ok(Initial);
    assert RunTo(before, 1) == Ok(AfterFirst(a));
    assert RunTo(before, 2) == Ok(AfterHeadedFirst(a, b));
    assert RunTo(before, 3) == Ok(AfterHeadedSecond(a, b));
    SecondHasRoom(a, b, c, v);
    HeadedRefused(a, b, c, v);
    RunAppends(before, ArrayHeader([a, b]));
    RunAppends(before, KeyValue([b, c], v));
  }

  lemma HeadedRefused(a: Segment, b: Segment, c: Segment, v: Literal)
    ensures Valid(AfterHeadedSecond(a, b))
    ensures Step(AfterHeadedSecond(a, b), ArrayHeader([a, b])) == Err(RedefinesTableAsArray)
    ensures Step(AfterHeadedSecond(a, b), KeyValue([b, c], v)) == Err(ExtendsExplicitTable)
  {
    hide AssignUnique, MarkClosed;
    var full := [a] + [b, c];
    assert full[..2] == [a, b];
  }
}
