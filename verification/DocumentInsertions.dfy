/**
 Where the lines the editor adds come to stand and how often they are printed: which insertions are printed at all, when
 an inserted line starts a line of the output and when it continues another, and how many entries one edit reaches.
 */
module DocumentInsertions {
  import opened Results
  import opened Utf8
  import opened Paths
  import opened StringWriter
  import opened DocumentText
  import opened DocumentEditor

  // ----- Which insertions are printed -----

  /** An insertion is printed when its key is pending, its line can be written and its anchor is there. */
  predicate Prints(ins: Insertion, a: Anchors, pending: map<string, Value>) {
    && ins.pathKey in pending && FormatKeyValue(ins.path, pending[ins.pathKey]).Some?
    && (ins.afterPath == "" || (ins.afterPath in a.byPath && a.byPath[ins.afterPath] < |a.lineEnds|))
  }

  /** The key and value of a printed insertion. */
  function AddedLine(ins: Insertion, a: Anchors, pending: map<string, Value>): string
    requires Prints(ins, a, pending)
  {
    FormatKeyValue(ins.path, pending[ins.pathKey]).value
  }

  function PointOf(ins: Insertion, a: Anchors, pending: map<string, Value>): nat
    requires Prints(ins, a, pending)
  {
    if ins.afterPath == "" then |a.raw| else a.lineEnds[a.byPath[ins.afterPath]]
  }

  /** What is spliced in: a line added at the end ends the last line first. */
  function SplicedText(ins: Insertion, a: Anchors, pending: map<string, Value>): string
    requires Prints(ins, a, pending)
  {
    (if ins.afterPath == "" then EndOfText(a.raw) else "") + AddedLine(ins, a, pending)
  }

  /** The insertions that are printed, in the order they were asked for. */
  function Printing(insertions: seq<Insertion>, a: Anchors, pending: map<string, Value>): (r: seq<Insertion>)
    ensures forall i :: 0 <= i < |r| ==> Prints(r[i], a, pending)
  {
    if insertions == [] then []
    else
      var last := insertions[|insertions| - 1];
      Printing(insertions[..|insertions| - 1], a, pending) + if Prints(last, a, pending) then [last] else []
  }

  /** Every printed insertion is one operation, at its point and with its line, and there are no others. */
  lemma {:induction false} OpsArePrinting(insertions: seq<Insertion>, a: Anchors, pending: map<string, Value>, order: nat)
    ensures var ops, printing := InsertionOps(insertions, a, pending, order), Printing(insertions, a, pending);
      && |ops| == |printing|
      && forall i :: 0 <= i < |ops| ==>
           ops[i] == Op(PointOf(printing[i], a, pending), PointOf(printing[i], a, pending),
                        SplicedText(printing[i], a, pending), order + i)
  {
    hide FormatKeyValue, EndOfText;
    if insertions != [] {
      OpsArePrinting(insertions[..|insertions| - 1], a, pending, order);
      assert forall text: string :: "" + text == text;
    }
  }

  // ----- How often a key is printed -----

  predicate PrintedFor(insertions: seq<Insertion>, a: Anchors, pending: map<string, Value>, k: string, i: nat)
    requires i < |insertions|
  {
    insertions[i].pathKey == k && Prints(insertions[i], a, pending)
  }

  /** The recorded insertions of the key `k` that are printed. */
  function RecordedFor(insertions: seq<Insertion>, a: Anchors, pending: map<string, Value>, k: string): set<nat> {
    set i: nat | i < |insertions| && PrintedFor(insertions, a, pending, k, i)
  }

  /** The operations that print the key `k`. */
  function OpsFor(insertions: seq<Insertion>, a: Anchors, pending: map<string, Value>, k: string): set<nat> {
    KeyedAt(Printing(insertions, a, pending), k)
  }

  lemma RecordedSnoc(front: seq<Insertion>, last: Insertion, a: Anchors, pending: map<string, Value>, k: string)
    ensures RecordedFor(front + [last], a, pending, k)
         == RecordedFor(front, a, pending, k) + if last.pathKey == k && Prints(last, a, pending) then {|front|} else {}
  {
    hide Prints;
    var all := front + [last];
    assert all[|front|] == last && forall i :: 0 <= i < |front| ==> all[i] == front[i];
  }

  function KeyedAt(printing: seq<Insertion>, k: string): set<nat> {
    set i: nat | i < |printing| && printing[i].pathKey == k
  }

  lemma KeyedSnoc(front: seq<Insertion>, last: Insertion, k: string)
    ensures KeyedAt(front + [last], k) == KeyedAt(front, k) + if last.pathKey == k then {|front|} else {}
  {
    var all := front + [last];
    assert all[|front|] == last && forall i :: 0 <= i < |front| ==> all[i] == front[i];
  }

  /** A key is printed by as many operations as it has recorded insertions that are printed. */
  lemma {:induction false} AsOftenAsRecorded(insertions: seq<Insertion>, a: Anchors, pending: map<string, Value>, k: string)
    ensures |OpsFor(insertions, a, pending, k)| == |RecordedFor(insertions, a, pending, k)|
  {
    hide Prints, RecordedFor, KeyedAt;
    if insertions == [] {
      NothingRecorded(a, pending, k);
    } else {
      var n := |insertions| - 1;
      var front, last := insertions[..n], insertions[n];
      AsOftenAsRecorded(front, a, pending, k);
      RecordedSnoc(front, last, a, pending, k);
      KeyedSnoc(Printing(front, a, pending), last, k);
      RecordedBelow(front, a, pending, k);
      KeyedBelow(Printing(front, a, pending), k);
      assert insertions == front + [last];
      assert Printing(front, a, pending) + [] == Printing(front, a, pending);
    }
  }

  lemma NothingRecorded(a: Anchors, pending: map<string, Value>, k: string)
    ensures RecordedFor([], a, pending, k) == {} == KeyedAt([], k)
  {
  }

  lemma RecordedBelow(insertions: seq<Insertion>, a: Anchors, pending: map<string, Value>, k: string)
    ensures |insertions| !in RecordedFor(insertions, a, pending, k)
  {
  }

  lemma KeyedBelow(printing: seq<Insertion>, k: string)
    ensures |printing| !in KeyedAt(printing, k)
  {
  }

  ghost predicate Only(s: set<nat>, i: nat) {
    i in s && forall j :: j in s ==> j == i
  }

  lemma OneElementIff(s: set<nat>)
    ensures |s| == 1 <==> exists i :: Only(s, i)
  {
    if |s| == 1 {
      var i :| i in s;
      assert |s - {i}| == 0;
      forall j | j in s ensures j == i {
        assert j !in s - {i};
      }
      assert Only(s, i);
    }
    if i: nat :| Only(s, i) {
      assert s == {i};
    }
  }

  /** A new key is printed once exactly when one of its recorded insertions is printed and no other is. */
  lemma PrintedOnceIff(insertions: seq<Insertion>, a: Anchors, pending: map<string, Value>, k: string)
    ensures |OpsFor(insertions, a, pending, k)| == 1 <==> exists i :: Only(RecordedFor(insertions, a, pending, k), i)
  {
    AsOftenAsRecorded(insertions, a, pending, k);
    OneElementIff(RecordedFor(insertions, a, pending, k));
  }

  // ----- Setting a key the document does not have -----

  /** NUL is a character of its own, so a text is UTF-8 exactly when its parts between NULs are. */
  lemma {:induction false} ValidAroundNul(a: string, b: string)
    ensures Valid(a + [NUL] + b) <==> Valid(a) && Valid(b)
    decreases |a|
  {
    hide Valid;
    var s := a + [NUL] + b;
    ValidStep(s);
    if a == "" {
      assert s[1..] == b && SequenceSize(s, 0) == 1;
      NothingValid();
    } else {
      ValidStep(a);
      var n := SequenceSize(s, 0);
      FirstCharacterInside(a, b);
      if n != 0 {
        assert s[n..] == a[n..] + [NUL] + b;
        ValidAroundNul(a[n..], b);
      }
    }
  }

  lemma NothingValid()
    ensures Valid("")
  {
  }

  lemma FirstCharacterInside(a: string, b: string)
    requires a != ""
    ensures var n := SequenceSize(a + [NUL] + b, 0); n == SequenceSize(a, 0) && n <= |a|
  {
    var s := a + [NUL] + b;
    assert s[|a|] == NUL && forall i :: 0 <= i < |a| ==> s[i] == a[i];
  }

  lemma KeyWritableIff(key: string)
    ensures FormatKey(key).Ok? <==> Valid(key)
  {
    hide Escaped;
    QuoteRoundTrips(key);
    if key == "" {
      NothingValid();
    } else if BareKey(key) {
      BareValid(key);
    }
  }

  lemma BareValid(key: string)
    requires BareKey(key)
    ensures Valid(key)
  {
    AsciiSkipped(key, 0, |key|);
  }

  /** Whether a path can be written depends on its key alone. */
  lemma {:induction false} PathWritableIff(path: KeyPath)
    ensures FormatPath(path).Ok? <==> Valid(Encode(path))
    decreases |path|
  {
    hide Valid, FormatKey;
    KeyWritableIff(path[0]);
    if |path| > 1 {
      PathWritableIff(path[1..]);
      ValidAroundNul(path[0], Encode(path[1..]));
    }
  }

  /** The operations that print the key `k` when the document is printed as it stands. */
  function LinesFor(raw: string, d: Edits, k: string): set<nat> {
    OpsFor(d.insertions, Places(raw, d), d.pending, k)
  }

  /**
   Setting a path the document does not have, to a value and under a key that can be written, prints its line; it is
   printed more than once exactly when an insertion of that key had been recorded before.
   */
  lemma SetPrintsAgainIff(raw: string, d: Edits, parse: Parser, path: KeyPath, v: Value)
    requires Sound(d, parse) && Encode(path) !in d.byPath && FormatKeyValue(path, v).Some?
    ensures var lines := LinesFor(raw, Added(d, Insertion("", Encode(path), path), v), Encode(path));
      && |lines| >= 1
      && (|lines| > 1 <==> exists i :: 0 <= i < |d.insertions| && d.insertions[i].pathKey == Encode(path))
  {
    var k, ins := Encode(path), Insertion("", Encode(path), path);
    var d', a := Added(d, ins, v), Places(raw, d);
    var n := |d.insertions|;
    AsOftenAsRecorded(d'.insertions, a, d'.pending, k);
    var recorded := RecordedFor(d'.insertions, a, d'.pending, k);
    assert n in recorded;
    forall i | 0 <= i < n && d.insertions[i].pathKey == k ensures i in recorded {
      assert Anchored(d, d.insertions[i]);
      PathWritableIff(path);
      PathWritableIff(d.insertions[i].path);
      assert d'.insertions[i] == d.insertions[i];
      assert Prints(d'.insertions[i], a, d'.pending);
    }
    OnlyOne(recorded, n);
  }

  lemma OnlyOne(s: set<nat>, n: nat)
    requires n in s
    ensures |s| >= 1 && (|s| > 1 <==> exists i :: i in s && i != n)
  {
    if i :| i in s && i != n {
      assert {i, n} <= s && |{i, n}| == 2;
      Larger({i, n}, s);
    } else {
      assert s == {n};
    }
  }

  lemma Larger(a: set<nat>, b: set<nat>)
    requires a <= b
    ensures |a| <= |b|
  {
    assert b == a + (b - a);
  }

  // ----- How many entries one edit reaches -----

  /** The entries of a path; a document may have several, under the elements of an array of tables. */
  function Occurrences(d: Edits, k: string): set<nat> {
    set i: nat | i < |d.entries| && d.entries[i].pathKey == k
  }

  /** The entries that are printed differently. */
  function Changed(d: Edits, d': Edits): set<nat> {
    set i: nat | i < |d.entries| && i < |d'.entries| && Lines(d)[i] != Lines(d')[i]
  }

  lemma ReplacedLines(d: Edits, k: string, v: Value, text: string)
    requires Indexed(d) && k in d.byPath
    ensures var d' := Replaced(d, k, v, text);
      |d'.entries| == |d.entries| && forall i :: 0 <= i < |d.entries| ==>
        Lines(d')[i] == if d.entries[i].pathKey == k then Lines(d)[i].(edit := Replace(text)) else Lines(d)[i]
  {
  }

  /** `Set` replaces the value of every entry of its path: of one exactly when the path occurs once. */
  lemma SetReaches(d: Edits, k: string, v: Value, text: string)
    requires Indexed(d) && k in d.byPath && EditOf(k, d.replacements, d.deletions) != Replace(text)
    ensures var d' := Replaced(d, k, v, text);
      && Changed(d, d') == Occurrences(d, k)
      && (forall i :: i in Occurrences(d, k) ==> Lines(d')[i].edit == Replace(text))
      && (|Changed(d, d')| == 1 <==> exists i :: Only(Occurrences(d, k), i))
  {
    hide Indexed, Replaced;
    ReplacedLines(d, k, v, text);
    OneElementIff(Occurrences(d, k));
  }

  /** `Delete` removes every entry of its path: one exactly when the path occurs once. */
  lemma DeleteReaches(d: Edits, k: string)
    requires Indexed(d) && k in d.byPath && k !in d.deletions
    ensures var d' := Removed(d, k);
      && Changed(d, d') == Occurrences(d, k)
      && (forall i :: i in Occurrences(d, k) ==> Lines(d')[i].edit == Remove)
      && (|Changed(d, d')| == 1 <==> exists i :: Only(Occurrences(d, k), i))
  {
    OneElementIff(Occurrences(d, k));
  }

  // ----- Where an inserted line starts -----

  /** What follows `s` starts a line. */
  predicate EndsLine(s: string) {
    s == "" || s[|s| - 1] == '\n'
  }

  predicate EndsIn(s: string, t: string) {
    |t| <= |s| && s[|s| - |t|..] == t
  }

  lemma EndsLineConcat(a: string, b: string)
    ensures EndsLine(a + b) <==> if b == "" then EndsLine(a) else EndsLine(b)
  {
    assert b == "" ==> a + b == a;
  }

  /** The text up to the end of line `i`, without what is inserted behind that line. */
  function RenderedTo(raw: string, lines: seq<Line>, inserts: seq<Op>, from: nat, i: nat): string
    requires LaidOutFrom(raw, lines, from) && i < |lines|
    decreases i
  {
    var l := lines[0];
    raw[from..l.line.start] + RenderedLine(raw, l)
    + if i == 0 then ""
      else Texts(InsertsBehind(raw, inserts, l.line.end)) + RenderedTo(raw, lines[1..], inserts, l.line.end, i - 1)
  }

  /** What stands behind a line: what is inserted there, and the rest. */
  lemma BehindLine(raw: string, lines: seq<Line>, inserts: seq<Op>, end: nat) returns (rest: string)
    requires LaidOutFrom(raw, lines, end)
    ensures Texts(InsertsBehind(raw, inserts, end)) + Rendered(raw, lines, inserts, end) == Texts(InsertsAt(inserts, end)) + rest
  {
    if end < |raw| {
      rest := Rendered(raw, lines, inserts, end);
    } else {
      rest := "";
      var at := Texts(InsertsAt(inserts, |raw|));
      assert raw[|raw|..] == "" && "" + at == at && at + "" == at;
      assert Rendered(raw, [], inserts, |raw|) == at;
    }
  }

  lemma Regroups(here: string, behind: string, to: string, at: string, rest: string)
    ensures here + (behind + (to + at + rest)) == here + (behind + to) + at + rest
  {
  }

  lemma RenderedHead(raw: string, lines: seq<Line>, inserts: seq<Op>, from: nat)
    requires LaidOutFrom(raw, lines, from) && lines != []
    ensures var l := lines[0];
      Rendered(raw, lines, inserts, from)
      == raw[from..l.line.start] + RenderedLine(raw, l)
         + (Texts(InsertsBehind(raw, inserts, l.line.end)) + Rendered(raw, lines[1..], inserts, l.line.end))
  {
  }

  /** Everything inserted at the end of line `i` stands behind it, one text after the other. */
  lemma {:induction false} PointSplits(raw: string, lines: seq<Line>, inserts: seq<Op>, from: nat, i: nat)
    returns (rest: string)
    requires LaidOutFrom(raw, lines, from) && i < |lines|
    ensures Rendered(raw, lines, inserts, from)
         == RenderedTo(raw, lines, inserts, from, i) + Texts(InsertsAt(inserts, lines[i].line.end)) + rest
    decreases i
  {
    hide RenderedLine, InsertsBehind, InsertsAt, Texts, Rendered;
    var l := lines[0];
    var here := raw[from..l.line.start] + RenderedLine(raw, l);
    RenderedHead(raw, lines, inserts, from);
    if i > 0 {
      var behind := Texts(InsertsBehind(raw, inserts, l.line.end));
      rest := PointSplits(raw, lines[1..], inserts, l.line.end, i - 1);
      Regroups(here, behind, RenderedTo(raw, lines[1..], inserts, l.line.end, i - 1),
               Texts(InsertsAt(inserts, lines[i].line.end)), rest);
    } else {
      rest := BehindLine(raw, lines[1..], inserts, l.line.end);
      Regroups(here, "", "", Texts(InsertsAt(inserts, l.line.end)), rest);
      assert here + "" == here;
    }
  }

  /** The texts at a point, before and behind the `n`th insertion. */
  lemma {:induction false} TextsSplit(inserts: seq<Op>, n: nat, at: nat)
    requires n < |inserts| && inserts[n].start == at
    ensures Texts(InsertsAt(inserts, at))
         == Texts(InsertsAt(inserts[..n], at)) + inserts[n].text + Texts(InsertsAt(inserts[n + 1..], at))
  {
    if n == 0 {
      assert inserts[..0] == [];
      TextsHead(inserts[0], InsertsAt(inserts[1..], at));
    } else {
      var rest, here := inserts[1..], inserts[0];
      TextsSplit(rest, n - 1, at);
      assert rest[..n - 1] == inserts[..n][1..] && rest[n..] == inserts[n + 1..];
      if here.start == at {
        TextsHead(here, InsertsAt(rest, at));
        TextsHead(here, InsertsAt(rest[..n - 1], at));
      }
    }
  }

  lemma TextsHead(op: Op, ops: seq<Op>)
    ensures Texts([op] + ops) == op.text + Texts(ops)
  {
    assert ([op] + ops)[1..] == ops;
  }

  predicate WholeLines(inserts: seq<Op>) {
    forall i :: 0 <= i < |inserts| ==> inserts[i].text != "" && EndsLine(inserts[i].text)
  }

  predicate SomeAt(inserts: seq<Op>, at: nat) {
    exists i :: 0 <= i < |inserts| && inserts[i].start == at
  }

  /** Texts that are whole lines end a line, when there are any. */
  lemma {:induction false} TextsEndLine(inserts: seq<Op>, at: nat)
    requires WholeLines(inserts)
    ensures EndsLine(Texts(InsertsAt(inserts, at))) && (Texts(InsertsAt(inserts, at)) != "" <==> SomeAt(inserts, at))
  {
    if inserts != [] {
      var here, rest := inserts[0], inserts[1..];
      TextsEndLine(rest, at);
      assert SomeAt(inserts, at) <==> here.start == at || SomeAt(rest, at) by {
        if i :| 0 <= i < |rest| && rest[i].start == at {
          assert inserts[i + 1] == rest[i];
        }
        if i :| 0 <= i < |inserts| && inserts[i].start == at {
          assert i > 0 ==> rest[i - 1] == inserts[i];
        }
      }
      if here.start == at {
        TextsHead(here, InsertsAt(rest, at));
        EndsLineConcat(here.text, Texts(InsertsAt(rest, at)));
      }
    }
  }

  /** The line begins behind a newline, and its value does not end in one. */
  predicate OwnLine(raw: string, l: Line) {
    && l.line.start <= |raw| && 0 < l.value.end <= |raw|
    && (l.line.start == 0 || raw[l.line.start - 1] == '\n') && raw[l.value.end - 1] != '\n'
  }

  /** So does the line of every entry that is edited. */
  predicate OwnLines(raw: string, lines: seq<Line>) {
    forall i :: 0 <= i < |lines| ==> lines[i].edit.Keep? || OwnLine(raw, lines[i])
  }

  lemma {:induction false} LineInside(raw: string, lines: seq<Line>, from: nat, i: nat)
    requires LaidOutFrom(raw, lines, from) && i < |lines|
    ensures var l := lines[i]; from <= l.line.start < l.value.start < l.value.end <= l.line.end <= |raw|
    decreases i
  {
    if i > 0 {
      LineInside(raw, lines[1..], lines[0].line.end, i - 1);
    }
  }

  /** A line that keeps what stands behind its value ends as it did. */
  lemma RenderedLineEnds(raw: string, l: Line)
    requires l.line.start < l.value.start < l.value.end <= l.line.end <= |raw| && !l.edit.Remove?
    ensures RenderedLine(raw, l) != ""
    ensures l.edit.Keep? || l.value.end < l.line.end ==> (EndsLine(RenderedLine(raw, l)) <==> raw[l.line.end - 1] == '\n')
  {
  }

  /** One line with what is inserted behind it ends a line when the raw line does, edited or not. */
  lemma LineAndInsertsEnd(raw: string, l: Line, inserts: seq<Op>, from: nat)
    requires from <= l.line.start < l.value.start < l.value.end <= l.line.end <= |raw|
    requires (l.edit.Keep? || OwnLine(raw, l)) && raw[l.line.end - 1] == '\n' && WholeLines(inserts)
    ensures EndsLine(raw[from..l.line.start] + RenderedLine(raw, l) + Texts(InsertsBehind(raw, inserts, l.line.end)))
  {
    hide RenderedLine;
    var gap, line, behind := raw[from..l.line.start], RenderedLine(raw, l), Texts(InsertsBehind(raw, inserts, l.line.end));
    TextsEndLine(inserts, l.line.end);
    EndsLineConcat(gap + line, behind);
    EndsLineConcat(gap, line);
    if l.edit.Remove? {
      RemovedIsNothing(raw, l);
    } else {
      RenderedLineEnds(raw, l);
    }
  }

  lemma RenderedNotEmpty(raw: string, l: Line)
    requires l.line.start < l.value.start < l.value.end <= l.line.end <= |raw|
    ensures RenderedLine(raw, l) == "" ==> l.edit.Remove?
  {
  }

  lemma RemovedIsNothing(raw: string, l: Line)
    requires l.line.start <= l.value.start <= l.value.end <= l.line.end <= |raw| && l.edit.Remove?
    ensures RenderedLine(raw, l) == ""
  {
  }

  /** Behind a removed line the next text starts a line. */
  lemma {:induction false} RemovedEndsLine(raw: string, lines: seq<Line>, inserts: seq<Op>, from: nat, i: nat)
    requires LaidOutFrom(raw, lines, from) && i < |lines| && lines[i].edit.Remove? && OwnLines(raw, lines) && WholeLines(inserts)
    ensures EndsLine(RenderedTo(raw, lines, inserts, from, i))
    ensures RenderedTo(raw, lines, inserts, from, i) == "" ==> lines[0].line.start == from && OwnLine(raw, lines[0])
    decreases i
  {
    hide RenderedLine, InsertsBehind, Texts, WholeLines;
    var l := lines[0];
    assert l.edit.Keep? || OwnLine(raw, l);
    RenderedNotEmpty(raw, l);
    if i == 0 {
      RemovedIsNothing(raw, l);
    } else {
      var end, rest := l.line.end, RenderedTo(raw, lines[1..], inserts, l.line.end, i - 1);
      var here := raw[from..l.line.start] + RenderedLine(raw, l);
      var behind := Texts(InsertsBehind(raw, inserts, end));
      RemovedEndsLine(raw, lines[1..], inserts, end, i - 1);
      assert here + (behind + rest) == here + behind + rest;
      EndsLineConcat(here + behind, rest);
      if rest == "" {
        LineAndInsertsEnd(raw, l, inserts, from);
      }
    }
  }

  /**
   What is inserted behind a line starts a line of the output exactly when something has been inserted there before it,
   or the anchor's line, as it is printed, ends in a newline; otherwise it continues that line. A line whose end is kept
   ends in a newline exactly when the byte before its end is one.
   */
  lemma InsertedBehindIff(raw: string, lines: seq<Line>, inserts: seq<Op>, i: nat, n: nat) returns (before: string, after: string)
    requires LaidOutFrom(raw, lines, 0) && WholeLines(inserts)
    requires i < |lines| && n < |inserts| && inserts[n].start == lines[i].line.end
    ensures Rendered(raw, lines, inserts, 0) == before + inserts[n].text + after
    ensures var l := lines[i];
      && l.line.start < l.value.start < l.value.end <= l.line.end <= |raw|
      && (!l.edit.Remove? ==>
            (EndsLine(before) <==> SomeAt(inserts[..n], l.line.end) || EndsLine(RenderedLine(raw, l)))
            && (EndsLine(before) || EndsIn(before, RenderedLine(raw, l))))
      && (l.edit.Keep? || (l.edit.Replace? && l.value.end < l.line.end) ==>
            (EndsLine(RenderedLine(raw, l)) <==> raw[l.line.end - 1] == '\n'))
      && (l.edit.Remove? && OwnLines(raw, lines) ==> EndsLine(before))
  {
    hide RenderedLine, WholeLines, Rendered, Texts, InsertsAt, SomeAt;
    var l := lines[i];
    LineInside(raw, lines, 0, i);
    var rest := PointSplits(raw, lines, inserts, 0, i);
    TextsSplit(inserts, n, l.line.end);
    FirstWhole(inserts, n);
    TextsEndLine(inserts[..n], l.line.end);
    var to, earlier := RenderedTo(raw, lines, inserts, 0, i), Texts(InsertsAt(inserts[..n], l.line.end));
    before, after := to + earlier, Texts(InsertsAt(inserts[n + 1..], l.line.end)) + rest;
    EndsLineConcat(to, earlier);
    if l.edit.Remove? {
      if OwnLines(raw, lines) {
        RemovedEndsLine(raw, lines, inserts, 0, i);
      }
    } else {
      RenderedLineEnds(raw, l);
      ToEndsInLine(raw, lines, inserts, 0, i);
    }
  }

  lemma FirstWhole(inserts: seq<Op>, n: nat)
    requires WholeLines(inserts) && n <= |inserts|
    ensures WholeLines(inserts[..n])
  {
  }

  /** The text up to a line that is not removed ends in that line. */
  lemma {:induction false} ToEndsInLine(raw: string, lines: seq<Line>, inserts: seq<Op>, from: nat, i: nat)
    requires LaidOutFrom(raw, lines, from) && i < |lines|
    requires var l := lines[i]; l.line.start <= l.value.start <= l.value.end <= l.line.end <= |raw| && RenderedLine(raw, l) != ""
    ensures var to, line := RenderedTo(raw, lines, inserts, from, i), RenderedLine(raw, lines[i]);
      EndsIn(to, line) && (EndsLine(to) <==> EndsLine(line))
    decreases i
  {
    hide RenderedLine, Texts, InsertsBehind;
    if i > 0 {
      ToEndsInLine(raw, lines[1..], inserts, lines[0].line.end, i - 1);
    }
  }

  // ----- Lines added at the end -----

  /** The document up to its end, without what is added there. */
  function RenderedFront(raw: string, lines: seq<Line>, inserts: seq<Op>, from: nat): string
    requires LaidOutFrom(raw, lines, from)
    decreases |lines|
  {
    if lines == [] then raw[from..]
    else
      var l := lines[0];
      raw[from..l.line.start] + RenderedLine(raw, l) + Texts(InsertsBehind(raw, inserts, l.line.end))
      + RenderedFront(raw, lines[1..], inserts, l.line.end)
  }

  lemma {:induction false} EndSplits(raw: string, lines: seq<Line>, inserts: seq<Op>, from: nat)
    requires LaidOutFrom(raw, lines, from)
    ensures Rendered(raw, lines, inserts, from) == RenderedFront(raw, lines, inserts, from) + Texts(InsertsAt(inserts, |raw|))
    decreases |lines|
  {
    hide RenderedLine, Texts, InsertsBehind, InsertsAt;
    if lines != [] {
      EndSplits(raw, lines[1..], inserts, lines[0].line.end);
    }
  }

  lemma {:induction false} FrontEndsLine(raw: string, lines: seq<Line>, inserts: seq<Op>, from: nat)
    requires LaidOutFrom(raw, lines, from) && OwnLines(raw, lines) && WholeLines(inserts)
    requires raw != "" && raw[|raw| - 1] == '\n'
    ensures EndsLine(RenderedFront(raw, lines, inserts, from))
    ensures RenderedFront(raw, lines, inserts, from) == "" ==>
      if lines == [] then from == |raw| else lines[0].line.start == from && OwnLine(raw, lines[0])
    decreases |lines|
  {
    hide RenderedLine, InsertsBehind, Texts, WholeLines;
    if lines != [] {
      var l, more := lines[0], lines[1..];
      var rest := RenderedFront(raw, more, inserts, l.line.end);
      assert l.edit.Keep? || OwnLine(raw, l);
      RenderedNotEmpty(raw, l);
      FrontEndsLine(raw, more, inserts, l.line.end);
      EndsLineConcat(raw[from..l.line.start] + RenderedLine(raw, l) + Texts(InsertsBehind(raw, inserts, l.line.end)), rest);
      if rest == "" {
        LineAndInsertsEnd(raw, l, inserts, from);
      }
    }
  }

  /** What is added at the end starts a line, because of the newline `EndOfText` puts before it when the text needs one. */
  lemma AddedStartsLine(raw: string, lines: seq<Line>, inserts: seq<Op>, n: nat, line: string) returns (before: string, after: string)
    requires LaidOutFrom(raw, lines, 0) && OwnLines(raw, lines) && WholeLines(inserts)
    requires n < |inserts| && inserts[n].start == |raw| && inserts[n].text == EndOfText(raw) + line
    ensures Rendered(raw, lines, inserts, 0) == before + line + after && EndsLine(before)
  {
    hide WholeLines, Rendered, Texts, InsertsAt, RenderedFront, SomeAt;
    EndSplits(raw, lines, inserts, 0);
    TextsSplit(inserts, n, |raw|);
    FirstWhole(inserts, n);
    TextsEndLine(inserts[..n], |raw|);
    var front, earlier := RenderedFront(raw, lines, inserts, 0), Texts(InsertsAt(inserts[..n], |raw|));
    before, after := front + earlier + EndOfText(raw), Texts(InsertsAt(inserts[n + 1..], |raw|));
    EndsLineConcat(front + earlier, EndOfText(raw));
    EndsLineConcat(front, earlier);
    if raw == "" {
      NothingLaidOut(lines);
      EmptyFront(inserts);
    } else if raw[|raw| - 1] == '\n' {
      FrontEndsLine(raw, lines, inserts, 0);
    }
  }

  lemma NothingLaidOut(lines: seq<Line>)
    requires LaidOutFrom("", lines, 0)
    ensures lines == []
  {
  }

  lemma EmptyFront(inserts: seq<Op>)
    ensures RenderedFront("", [], inserts, 0) == ""
  {
  }

  // ----- The same of the editor's records -----

  lemma AddedLineIsLine(ins: Insertion, a: Anchors, pending: map<string, Value>)
    requires Prints(ins, a, pending)
    ensures AddedLine(ins, a, pending) != "" && EndsLine(AddedLine(ins, a, pending)) && EndsLine(SplicedText(ins, a, pending))
  {
    hide FormatValue, FormatPath;
  }

  /** The insertions of a document that are printed; the `n`th is the `n`th operation that is no edit of an entry. */
  function PrintingOf(raw: string, d: Edits): seq<Insertion> {
    Printing(d.insertions, Places(raw, d), d.pending)
  }

  lemma InsertsAreWhole(raw: string, d: Edits)
    ensures WholeLines(Inserts(raw, d)) && |Inserts(raw, d)| == |PrintingOf(raw, d)|
  {
    hide Prints, PointOf, SplicedText, AddedLine;
    var a := Places(raw, d);
    OpsArePrinting(d.insertions, a, d.pending, |LineOps(Lines(d), 0)|);
    forall i | 0 <= i < |Inserts(raw, d)| ensures Inserts(raw, d)[i].text != "" && EndsLine(Inserts(raw, d)[i].text) {
      AddedLineIsLine(PrintingOf(raw, d)[i], a, d.pending);
      SplicedNotEmpty(PrintingOf(raw, d)[i], a, d.pending);
    }
  }

  lemma SplicedNotEmpty(ins: Insertion, a: Anchors, pending: map<string, Value>)
    requires Prints(ins, a, pending)
    ensures SplicedText(ins, a, pending) != ""
  {
    hide FormatValue, FormatPath;
  }

  /**
   `InsertAfter`: the `n`th printed insertion goes behind the line of its anchor. It starts a line of the output exactly
   when another insertion stands there already or the anchor's line as printed ends in a newline, which for a line whose
   end is kept says that the byte before its end is a newline; otherwise it continues the anchor's line.
   */
  lemma InsertAfterStartsLineIff(raw: string, d: Edits, n: nat) returns (before: string, after: string)
    requires LaidOutFrom(raw, Lines(d), 0) && n < |PrintingOf(raw, d)| && PrintingOf(raw, d)[n].afterPath != ""
    ensures n < |Inserts(raw, d)|
    ensures var ins := PrintingOf(raw, d)[n];
      && Rendered(raw, Lines(d), Inserts(raw, d), 0) == before + AddedLine(ins, Places(raw, d), d.pending) + after
      && ins.afterPath in d.byPath && d.byPath[ins.afterPath] < |Lines(d)|
      && var l := Lines(d)[d.byPath[ins.afterPath]];
      && l.line.start < l.value.start < l.value.end <= l.line.end <= |raw|
      && (!l.edit.Remove? ==>
            (EndsLine(before) <==> SomeAt(Inserts(raw, d)[..n], l.line.end) || EndsLine(RenderedLine(raw, l)))
            && (EndsLine(before) || EndsIn(before, RenderedLine(raw, l))))
      && (l.edit.Keep? || (l.edit.Replace? && l.value.end < l.line.end) ==>
            (EndsLine(RenderedLine(raw, l)) <==> raw[l.line.end - 1] == '\n'))
      && (l.edit.Remove? && OwnLines(raw, Lines(d)) ==> EndsLine(before))
  {
    hide Rendered, RenderedLine, WholeLines, SomeAt, EndsLine, OwnLines, AddedLine, LaidOutFrom;
    InsertsAreWhole(raw, d);
    var a, ins := Places(raw, d), PrintingOf(raw, d)[n];
    OpsArePrinting(d.insertions, a, d.pending, |LineOps(Lines(d), 0)|);
    assert Prints(ins, a, d.pending);
    assert "" + AddedLine(ins, a, d.pending) == AddedLine(ins, a, d.pending);
    var i := d.byPath[ins.afterPath];
    assert a.lineEnds[i] == Lines(d)[i].line.end;
    before, after := InsertedBehindIff(raw, Lines(d), Inserts(raw, d), i, n);
  }

  /** A line added to the end of the document always starts a line. */
  lemma AppendedStartsLine(raw: string, d: Edits, n: nat) returns (before: string, after: string)
    requires LaidOutFrom(raw, Lines(d), 0) && OwnLines(raw, Lines(d))
    requires n < |PrintingOf(raw, d)| && PrintingOf(raw, d)[n].afterPath == ""
    ensures Rendered(raw, Lines(d), Inserts(raw, d), 0)
         == before + AddedLine(PrintingOf(raw, d)[n], Places(raw, d), d.pending) + after
    ensures EndsLine(before)
  {
    hide Rendered, WholeLines, EndsLine, OwnLines, AddedLine, LaidOutFrom, EndOfText;
    InsertsAreWhole(raw, d);
    var a, ins := Places(raw, d), PrintingOf(raw, d)[n];
    OpsArePrinting(d.insertions, a, d.pending, |LineOps(Lines(d), 0)|);
    before, after := AddedStartsLine(raw, Lines(d), Inserts(raw, d), n, AddedLine(ins, a, d.pending));
  }
}
