/**
 How `Document.Bytes` puts a document together: edit operations on spans of the raw text, sorted and spliced. The
 reference is `Rendered`, which walks the entries line by line and knows nothing of operations or of sorting.
 */
module DocumentText {
  import opened Results

  datatype Span = Span(start: nat, end: nat)

  datatype Op = Op(start: nat, end: nat, text: string, order: nat)

  /** The order the operations are sorted in; positions in the list break ties, so it is strict. */
  predicate Before(a: Op, b: Op) {
    if a.start != b.start then a.start < b.start
    else if a.end != b.end then a.end < b.end
    else a.order < b.order
  }

  predicate Sorted(ops: seq<Op>) {
    forall i, j :: 0 <= i < j < |ops| ==> Before(ops[i], ops[j])
  }

  predicate Numbered(ops: seq<Op>) {
    forall i :: 0 <= i < |ops| ==> ops[i].order == i
  }

  // ----- Sorting -----

  function Inserted(ops: seq<Op>, op: Op): seq<Op> {
    if ops == [] || Before(op, ops[0]) then [op] + ops else [ops[0]] + Inserted(ops[1..], op)
  }

  /** What `sort.SliceStable` leaves. */
  function SortOps(ops: seq<Op>): seq<Op> {
    if ops == [] then [] else Inserted(SortOps(ops[..|ops| - 1]), ops[|ops| - 1])
  }

  predicate Distinct(ops: seq<Op>, op: Op) {
    forall i :: 0 <= i < |ops| ==> ops[i].order != op.order
  }

  lemma {:induction false} InsertedSorted(ops: seq<Op>, op: Op)
    requires Sorted(ops) && Distinct(ops, op)
    ensures Sorted(Inserted(ops, op))
    ensures forall x :: x in Inserted(ops, op) <==> x in ops || x == op
  {
    if ops != [] && !Before(op, ops[0]) {
      var rest := ops[1..];
      InsertedSorted(rest, op);
      var tail := Inserted(rest, op);
      assert ops == [ops[0]] + rest;
      assert forall x :: x in rest ==> Before(ops[0], x);
      forall j | 0 <= j < |tail| ensures Before(ops[0], tail[j]) {
        assert tail[j] in tail;
      }
    }
  }

  lemma {:induction false} SortOpsSorts(ops: seq<Op>)
    requires Numbered(ops)
    ensures Sorted(SortOps(ops)) && forall x :: x in SortOps(ops) <==> x in ops
  {
    if ops != [] {
      var front, last := ops[..|ops| - 1], ops[|ops| - 1];
      SortOpsSorts(front);
      forall i | 0 <= i < |SortOps(front)| ensures SortOps(front)[i].order != last.order {
        assert SortOps(front)[i] in front;
      }
      InsertedSorted(SortOps(front), last);
      assert ops == front + [last];
    }
  }

  lemma HasElement(ops: seq<Op>)
    ensures ops == [] || exists x :: x in ops
  {
    if ops != [] {
      assert ops[0] in ops;
    }
  }

  /** A set of operations has one sorted list. */
  lemma {:induction false} SortedUnique(a: seq<Op>, b: seq<Op>)
    requires Sorted(a) && Sorted(b) && forall x :: x in a <==> x in b
    ensures a == b
    decreases |a|
  {
    if a == [] {
      HasElement(b);
    } else {
      assert a[0] in b && b[0] in a;
      assert a[0] == b[0];
      forall x ensures x in a[1..] <==> x in b[1..] {
        assert x in a <==> x == a[0] || x in a[1..];
        assert x in b <==> x == b[0] || x in b[1..];
        assert a[0] !in a[1..] && b[0] !in b[1..];
      }
      SortedUnique(a[1..], b[1..]);
    }
  }

  // ----- Splicing -----

  /** The splice loop, from `cursor` on: an operation that does not fit is dropped. */
  function Splice(raw: string, ops: seq<Op>, cursor: nat): string
    requires cursor <= |raw|
    decreases |ops|
  {
    if ops == [] then raw[cursor..]
    else if ops[0].start < cursor || ops[0].end < ops[0].start || ops[0].end > |raw| then Splice(raw, ops[1..], cursor)
    else raw[cursor..ops[0].start] + ops[0].text + Splice(raw, ops[1..], ops[0].end)
  }

  /** Every operation fits behind the one before it. */
  predicate Chained(raw: string, ops: seq<Op>, cursor: nat)
    decreases |ops|
  {
    if ops == [] then cursor <= |raw|
    else cursor <= ops[0].start <= ops[0].end <= |raw| && Chained(raw, ops[1..], ops[0].end)
  }

  function Delta(ops: seq<Op>): int {
    if ops == [] then 0 else |ops[0].text| - (ops[0].end - ops[0].start) + Delta(ops[1..])
  }

  /** A chained list is spliced whole: the length is the length of the raw text plus what each operation adds. */
  lemma {:induction false} SpliceLength(raw: string, ops: seq<Op>, cursor: nat)
    requires cursor <= |raw| && Chained(raw, ops, cursor)
    ensures |Splice(raw, ops, cursor)| == |raw| - cursor + Delta(ops)
    decreases |ops|
  {
    if ops != [] {
      SpliceLength(raw, ops[1..], ops[0].end);
    }
  }

  lemma SliceJoins(raw: string, i: nat, j: nat, k: nat)
    requires i <= j <= k <= |raw|
    ensures raw[i..k] == raw[i..j] + raw[j..k]
  {
  }

  lemma Associates(a: string, b: string, c: string, d: string)
    ensures a + b + c + d == a + (b + c + d)
  {
  }

  lemma SpliceSkips(raw: string, ops: seq<Op>, cursor: nat, later: nat)
    requires cursor <= later && Chained(raw, ops, later) && later <= |raw|
    ensures Splice(raw, ops, cursor) == raw[cursor..later] + Splice(raw, ops, later)
  {
    if ops == [] {
      SliceJoins(raw, cursor, later, |raw|);
      assert raw[cursor..] == raw[cursor..|raw|] && raw[later..] == raw[later..|raw|];
    } else {
      var op := ops[0];
      SliceJoins(raw, cursor, later, op.start);
      Associates(raw[cursor..later], raw[later..op.start], op.text, Splice(raw, ops[1..], op.end));
    }
  }

  // ----- The reference -----

  datatype Edit = Keep | Remove | Replace(text: string)

  /** An entry's line, the value in it, and what has been asked of it. */
  datatype Line = Line(line: Span, value: Span, edit: Edit)

  predicate LaidOutFrom(raw: string, lines: seq<Line>, from: nat)
    decreases |lines|
  {
    if lines == [] then from <= |raw|
    else
      var l := lines[0];
      && from <= l.line.start < l.value.start < l.value.end <= l.line.end <= |raw|
      && LaidOutFrom(raw, lines[1..], l.line.end)
  }

  function RenderedLine(raw: string, l: Line): string
    requires l.line.start <= l.value.start <= l.value.end <= l.line.end <= |raw|
  {
    match l.edit
    case Keep => raw[l.line.start..l.line.end]
    case Remove => ""
    case Replace(text) => raw[l.line.start..l.value.start] + text + raw[l.value.end..l.line.end]
  }

  /** The insertions at a point, in the order they were asked for. */
  function InsertsAt(inserts: seq<Op>, at: nat): seq<Op> {
    if inserts == [] then []
    else if inserts[0].start == at then [inserts[0]] + InsertsAt(inserts[1..], at)
    else InsertsAt(inserts[1..], at)
  }

  /** The insertions behind a line that is not the end of the text. */
  function InsertsBehind(raw: string, inserts: seq<Op>, end: nat): seq<Op> {
    if end < |raw| then InsertsAt(inserts, end) else []
  }

  function Texts(ops: seq<Op>): string {
    if ops == [] then "" else ops[0].text + Texts(ops[1..])
  }

  /**
   The document from `from` on: every line kept, removed or with its value replaced, what was inserted after a line
   right behind it, and what was added to the document at the end.
   */
  function Rendered(raw: string, lines: seq<Line>, inserts: seq<Op>, from: nat): string
    requires LaidOutFrom(raw, lines, from)
    decreases |lines|
  {
    if lines == [] then raw[from..] + Texts(InsertsAt(inserts, |raw|))
    else
      var l := lines[0];
      raw[from..l.line.start] + RenderedLine(raw, l)
      + (Texts(InsertsBehind(raw, inserts, l.line.end)) + Rendered(raw, lines[1..], inserts, l.line.end))
  }

  // ----- The operations of a document -----

  function LineOp(l: Line, order: nat): Option<Op> {
    match l.edit
    case Keep => None
    case Remove => Some(Op(l.line.start, l.line.end, "", order))
    case Replace(text) => Some(Op(l.value.start, l.value.end, text, order))
  }

  /** The operations of the lines, numbered from `order`. */
  function LineOps(lines: seq<Line>, order: nat): seq<Op> {
    if lines == [] then []
    else
      match LineOp(lines[0], order)
      case None => LineOps(lines[1..], order)
      case Some(op) => [op] + LineOps(lines[1..], order + 1)
  }

  function OpAt(l: Line, order: nat): seq<Op> {
    match LineOp(l, order)
    case None => []
    case Some(op) => [op]
  }

  /** The operations as they come in the text. */
  function InOrder(raw: string, lines: seq<Line>, inserts: seq<Op>, order: nat): seq<Op> {
    if lines == [] then InsertsAt(inserts, |raw|)
    else
      var here := OpAt(lines[0], order);
      here + (InsertsBehind(raw, inserts, lines[0].line.end) + InOrder(raw, lines[1..], inserts, order + |here|))
  }

  predicate PointInserts(raw: string, inserts: seq<Op>) {
    && (forall i :: 0 <= i < |inserts| ==> inserts[i].start == inserts[i].end <= |raw|)
    && (forall i, j :: 0 <= i < j < |inserts| ==> inserts[i].order < inserts[j].order)
  }

  lemma {:induction false} InsertsAtMeans(inserts: seq<Op>, at: nat)
    ensures forall x :: x in InsertsAt(inserts, at) <==> x in inserts && x.start == at
  {
    if inserts != [] {
      InsertsAtMeans(inserts[1..], at);
      assert inserts == [inserts[0]] + inserts[1..];
    }
  }

  lemma {:induction false} InsertsAtSorted(raw: string, inserts: seq<Op>, at: nat)
    requires PointInserts(raw, inserts)
    ensures Sorted(InsertsAt(inserts, at))
  {
    if inserts != [] {
      InsertsAtSorted(raw, inserts[1..], at);
      InsertsAtMeans(inserts[1..], at);
      var rest := InsertsAt(inserts[1..], at);
      forall j | 0 <= j < |rest| && inserts[0].start == at ensures Before(inserts[0], rest[j]) {
        assert rest[j] in inserts[1..];
      }
    }
  }

  /** Insertions at one point are spliced one after the other. */
  lemma {:induction false} SplicePoint(raw: string, here: seq<Op>, rest: seq<Op>, cursor: nat, at: nat)
    requires cursor <= at <= |raw| && Chained(raw, rest, at)
    requires forall i :: 0 <= i < |here| ==> here[i].start == here[i].end == at
    ensures Chained(raw, here + rest, at)
    ensures Splice(raw, here + rest, cursor) == raw[cursor..at] + Texts(here) + Splice(raw, rest, at)
    decreases |here|
  {
    if here == [] {
      assert here + rest == rest;
      SpliceSkips(raw, rest, cursor, at);
    } else {
      SplicePoint(raw, here[1..], rest, at, at);
      assert (here + rest)[1..] == here[1..] + rest;
      assert raw[at..at] == "";
      assert Splice(raw, here[1..] + rest, at) == Texts(here[1..]) + Splice(raw, rest, at);
    }
  }

  /** The operations in the order of the text are chained, and splicing them renders the document. */
  lemma {:induction false} InOrderRenders(raw: string, lines: seq<Line>, inserts: seq<Op>, order: nat, from: nat)
    requires LaidOutFrom(raw, lines, from) && PointInserts(raw, inserts)
    ensures from <= |raw| && Chained(raw, InOrder(raw, lines, inserts, order), from)
    ensures Splice(raw, InOrder(raw, lines, inserts, order), from) == Rendered(raw, lines, inserts, from)
    decreases |lines|
  {
    if lines == [] {
      var here := InsertsAt(inserts, |raw|);
      InsertsAtMeans(inserts, |raw|);
      assert forall i :: 0 <= i < |here| ==> here[i] in inserts;
      SplicePoint(raw, here, [], from, |raw|);
      assert here + [] == here && raw[from..|raw|] == raw[from..] && raw[|raw|..] == "";
      ChainedEarlier(raw, here, from, |raw|);
    } else {
      LineRenders(raw, lines, inserts, order, from);
    }
  }

  lemma ChainedEarlier(raw: string, ops: seq<Op>, from: nat, later: nat)
    requires from <= later && Chained(raw, ops, later)
    ensures Chained(raw, ops, from)
  {
  }

  lemma LineRenders(raw: string, lines: seq<Line>, inserts: seq<Op>, order: nat, from: nat)
    requires lines != [] && LaidOutFrom(raw, lines, from) && PointInserts(raw, inserts)
    ensures Chained(raw, InOrder(raw, lines, inserts, order), from)
    ensures Splice(raw, InOrder(raw, lines, inserts, order), from) == Rendered(raw, lines, inserts, from)
    decreases |lines|, 0
  {
    hide RenderedLine, OpAt, InsertsBehind, Splice, Chained, Texts;
    var l := lines[0];
    var here, end := OpAt(l, order), l.line.end;
    var rest := InOrder(raw, lines[1..], inserts, order + |here|);
    var points := InsertsBehind(raw, inserts, end);
    InOrderRenders(raw, lines[1..], inserts, order + |here|, end);
    PointsSorted(raw, inserts, end);
    assert forall i :: 0 <= i < |points| ==> points[i] in points;
    SplicePoint(raw, points, rest, end, end);
    NothingBetween(raw, end, Texts(points));
    OneLine(raw, l, order, points + rest, from);
  }

  lemma NothingBetween(raw: string, at: nat, text: string)
    requires at <= |raw|
    ensures raw[at..at] + text == text
  {
  }

  lemma OneLine(raw: string, l: Line, order: nat, after: seq<Op>, from: nat)
    requires from <= l.line.start < l.value.start < l.value.end <= l.line.end <= |raw|
    requires Chained(raw, after, l.line.end)
    ensures Chained(raw, OpAt(l, order) + after, from)
    ensures Splice(raw, OpAt(l, order) + after, from)
         == raw[from..l.line.start] + RenderedLine(raw, l) + Splice(raw, after, l.line.end)
  {
    var ops := OpAt(l, order) + after;
    if l.edit.Keep? {
      assert ops == after;
      SpliceSkips(raw, after, from, l.line.end);
      ChainedEarlier(raw, after, from, l.line.end);
      assert raw[from..l.line.end] == raw[from..l.line.start] + raw[l.line.start..l.line.end];
    } else {
      assert ops[1..] == after;
      if l.edit.Replace? {
        SpliceSkips(raw, after, l.value.end, l.line.end);
        ChainedEarlier(raw, after, l.value.end, l.line.end);
        assert raw[from..l.value.start] == raw[from..l.line.start] + raw[l.line.start..l.value.start];
      }
    }
  }

  // ----- Sorting finds the order of the text -----

  /** No operation of the lines from `from` on starts before it, and none but an insertion is empty. */
  predicate AllFrom(ops: seq<Op>, from: nat) {
    forall x :: x in ops ==> from <= x.start && (x.start == from ==> from < x.end)
  }

  lemma {:induction false} InOrderSorted(raw: string, lines: seq<Line>, inserts: seq<Op>, order: nat, from: nat)
    requires LaidOutFrom(raw, lines, from) && PointInserts(raw, inserts)
    ensures Sorted(InOrder(raw, lines, inserts, order))
    ensures from < |raw| ==> AllFrom(InOrder(raw, lines, inserts, order), from)
    ensures forall x :: x in InOrder(raw, lines, inserts, order) ==> from <= x.start
    decreases |lines|
  {
    if lines == [] {
      InsertsAtSorted(raw, inserts, |raw|);
      InsertsAtMeans(inserts, |raw|);
    } else {
      LineSorted(raw, lines, inserts, order, from);
    }
  }

  lemma LineSorted(raw: string, lines: seq<Line>, inserts: seq<Op>, order: nat, from: nat)
    requires lines != [] && LaidOutFrom(raw, lines, from) && PointInserts(raw, inserts)
    ensures Sorted(InOrder(raw, lines, inserts, order))
    ensures from < |raw| ==> AllFrom(InOrder(raw, lines, inserts, order), from)
    ensures forall x :: x in InOrder(raw, lines, inserts, order) ==> from <= x.start
    decreases |lines|, 0
  {
    hide Sorted, InsertsBehind, PointInserts, OpAt;
    var l := lines[0];
    var here, end := OpAt(l, order), l.line.end;
    var points := InsertsBehind(raw, inserts, end);
    var rest := InOrder(raw, lines[1..], inserts, order + |here|);
    InOrderSorted(raw, lines[1..], inserts, order + |here|, end);
    PointsSorted(raw, inserts, end);
    SortedConcat(points, rest);
    OneSorted(l, order);
    InConcat(points, rest);
    SortedConcat(here, points + rest);
    InConcat(here, points + rest);
  }

  lemma InConcat(a: seq<Op>, b: seq<Op>)
    ensures forall x :: x in a + b <==> x in a || x in b
  {
  }

  lemma OneSorted(l: Line, order: nat)
    requires l.line.start < l.value.start < l.value.end <= l.line.end
    ensures Sorted(OpAt(l, order))
    ensures forall x :: x in OpAt(l, order) ==> l.line.start <= x.start < x.end <= l.line.end
  {
  }

  lemma PointsSorted(raw: string, inserts: seq<Op>, at: nat)
    requires PointInserts(raw, inserts)
    ensures var points := InsertsBehind(raw, inserts, at);
      Sorted(points) && forall x :: x in points ==> x.start == x.end == at < |raw|
  {
    InsertsAtSorted(raw, inserts, at);
    InsertsAtMeans(inserts, at);
  }

  lemma SortedConcat(a: seq<Op>, b: seq<Op>)
    requires Sorted(a) && Sorted(b) && forall x, y :: x in a && y in b ==> Before(x, y)
    ensures Sorted(a + b)
  {
    forall i, j | 0 <= i < j < |a + b| ensures Before((a + b)[i], (a + b)[j]) {
      if i < |a| <= j {
        assert a[i] in a && b[j - |a|] in b;
      }
    }
  }

  /** Where insertions may point: behind a line, or at the end of the text. */
  predicate AtLines(raw: string, lines: seq<Line>, inserts: seq<Op>) {
    forall x :: x in inserts ==> x.start == |raw| || exists i :: 0 <= i < |lines| && x.start == lines[i].line.end
  }

  predicate SomeLineEnds(raw: string, lines: seq<Line>, at: nat) {
    lines != [] && (at == lines[0].line.end < |raw| || SomeLineEnds(raw, lines[1..], at))
  }

  lemma {:induction false} LineEndsIn(raw: string, lines: seq<Line>, i: nat)
    requires i < |lines| && lines[i].line.end < |raw|
    ensures SomeLineEnds(raw, lines, lines[i].line.end)
  {
    if i > 0 {
      LineEndsIn(raw, lines[1..], i - 1);
    }
  }

  lemma {:induction false} InOrderElements(raw: string, lines: seq<Line>, inserts: seq<Op>, order: nat, x: Op)
    ensures x in InOrder(raw, lines, inserts, order) <==>
              x in LineOps(lines, order)
              || (x in inserts && (x.start == |raw|
                                   || SomeLineEnds(raw, lines, x.start)))
    decreases |lines|
  {
    if lines == [] {
      InsertsAtMeans(inserts, |raw|);
    } else {
      hide OpAt, InsertsBehind, LineOps;
      var here := OpAt(lines[0], order);
      var points := InsertsBehind(raw, inserts, lines[0].line.end);
      var rest := InOrder(raw, lines[1..], inserts, order + |here|);
      InOrderElements(raw, lines[1..], inserts, order + |here|, x);
      InsertsBehindMeans(raw, inserts, lines[0].line.end, x);
      LineOpsHead(lines, order);
      assert x in points + rest <==> x in points || x in rest;
      assert x in here + (points + rest) <==> x in here || x in points + rest;
      assert InOrder(raw, lines, inserts, order) == here + (points + rest);
      var more := LineOps(lines[1..], order + |here|);
      assert x in here + more <==> x in here || x in more;
    }
  }

  lemma LineOpsHead(lines: seq<Line>, order: nat)
    requires lines != []
    ensures LineOps(lines, order) == OpAt(lines[0], order) + LineOps(lines[1..], order + |OpAt(lines[0], order)|)
  {
  }

  lemma InsertsBehindMeans(raw: string, inserts: seq<Op>, end: nat, x: Op)
    ensures x in InsertsBehind(raw, inserts, end) <==> x in inserts && x.start == end < |raw|
  {
    InsertsAtMeans(inserts, end);
  }

  /**
   When the entries stand on lines of their own, in order, sorting and splicing drops no operation and renders the
   document: exactly the touched lines differ, and insertions keep their order.
   */
  lemma SpliceRenders(raw: string, lines: seq<Line>, inserts: seq<Op>)
    requires LaidOutFrom(raw, lines, 0) && PointInserts(raw, inserts) && AtLines(raw, lines, inserts)
    requires Numbered(LineOps(lines, 0) + inserts)
    ensures var ops := SortOps(LineOps(lines, 0) + inserts);
      && Chained(raw, ops, 0) && Splice(raw, ops, 0) == Rendered(raw, lines, inserts, 0)
      && |Rendered(raw, lines, inserts, 0)| == |raw| + Delta(ops)
  {
    var given := LineOps(lines, 0) + inserts;
    var ops, ordered := SortOps(given), InOrder(raw, lines, inserts, 0);
    SortOpsSorts(given);
    InOrderSorted(raw, lines, inserts, 0, 0);
    forall x ensures x in ordered <==> x in given {
      InOrderElements(raw, lines, inserts, 0, x);
      if x in inserts && x.start != |raw| {
        var i :| 0 <= i < |lines| && x.start == lines[i].line.end;
        assert x.start < |raw|;
        LineEndsIn(raw, lines, i);
      }
    }
    SortedUnique(ops, ordered);
    InOrderRenders(raw, lines, inserts, 0, 0);
    SpliceLength(raw, ops, 0);
  }

  // ----- Where the lines of entries come from -----

  predicate LineBreak(c: char) {
    c == '\n' || c == '\r'
  }

  /** The start of the line that holds `i`. */
  function LineStart(data: string, i: nat): (r: nat)
    requires i <= |data|
    ensures r <= i
  {
    if i > 0 && !LineBreak(data[i - 1]) then LineStart(data, i - 1) else i
  }

  /** The end of the line that holds `i`, its line ending included. */
  function LineEnd(data: string, i: nat): (r: nat)
    requires i <= |data|
    ensures i <= r <= |data|
    decreases |data| - i
  {
    if i == |data| then i
    else if data[i] == '\n' then i + 1
    else if data[i] == '\r' then if i + 1 < |data| && data[i + 1] == '\n' then i + 2 else i + 1
    else LineEnd(data, i + 1)
  }

  method LineSpan(data: string, start: nat, end: nat) returns (r: Span)
    requires start <= end <= |data|
    ensures r == Span(LineStart(data, start), LineEnd(data, end))
    ensures r.start <= start && end <= r.end <= |data|
  {
    var lineStart: nat := start;
    while lineStart > 0 && data[lineStart - 1] != '\n' && data[lineStart - 1] != '\r'
      invariant lineStart <= start && LineStart(data, start) == LineStart(data, lineStart)
    {
      lineStart := lineStart - 1;
    }
    var lineEnd := end;
    while lineEnd < |data|
      invariant end <= lineEnd <= |data| && LineEnd(data, end) == LineEnd(data, lineEnd)
    {
      var b := data[lineEnd];
      if b == '\n' {
        return Span(lineStart, lineEnd + 1);
      }
      if b == '\r' {
        return Span(lineStart, if lineEnd + 1 < |data| && data[lineEnd + 1] == '\n' then lineEnd + 2 else lineEnd + 1);
      }
      lineEnd := lineEnd + 1;
    }
    return Span(lineStart, lineEnd);
  }

  lemma {:induction false} LineStartBound(data: string, i: nat, p: nat)
    requires p < i <= |data| && data[p] == '\n'
    ensures p < LineStart(data, i)
  {
    if !LineBreak(data[i - 1]) {
      LineStartBound(data, i - 1, p);
    }
  }

  lemma {:induction false} LineEndBound(data: string, i: nat, p: nat)
    requires i <= p < |data| && data[p] == '\n'
    ensures LineEnd(data, i) <= p + 1
    decreases p - i
  {
    if i < p && !LineBreak(data[i]) {
      LineEndBound(data, i + 1, p);
    }
  }

  /** A key and its value, as the parser found them. */
  datatype Placed = Placed(key: Span, value: Span)

  predicate NewlineBetween(raw: string, from: nat, to: nat) {
    exists p :: from <= p < to && p < |raw| && raw[p] == '\n'
  }

  /** Every entry is inside the text, and a newline stands between it and the next. */
  predicate Separated(raw: string, placed: seq<Placed>) {
    && (forall i :: 0 <= i < |placed| ==>
          placed[i].key.start < placed[i].value.start < placed[i].value.end <= |raw|)
    && (forall i :: 0 < i < |placed| ==> NewlineBetween(raw, placed[i - 1].value.end, placed[i].key.start))
  }

  /** The entry with the line `LineSpan` gives it. */
  predicate OnItsLine(raw: string, p: Placed, l: Line)
    requires p.key.start <= p.value.end <= |raw|
  {
    l.value == p.value && l.line == Span(LineStart(raw, p.key.start), LineEnd(raw, p.value.end))
  }

  /** Entries a newline keeps apart stand on lines of their own. */
  lemma {:induction false} SeparatedIsLaidOut(raw: string, placed: seq<Placed>, lines: seq<Line>, from: nat)
    requires Separated(raw, placed) && |lines| == |placed| && from <= |raw|
    requires forall i :: 0 <= i < |placed| ==> OnItsLine(raw, placed[i], lines[i])
    requires placed != [] ==> from <= LineStart(raw, placed[0].key.start)
    ensures LaidOutFrom(raw, lines, from)
    decreases |placed|
  {
    if placed != [] {
      var p, l := placed[0], lines[0];
      assert OnItsLine(raw, p, l);
      var rest := placed[1..];
      if rest != [] {
        assert NewlineBetween(raw, placed[0].value.end, placed[1].key.start);
        var n :| p.value.end <= n < rest[0].key.start && n < |raw| && raw[n] == '\n';
        LineEndBound(raw, p.value.end, n);
        LineStartBound(raw, rest[0].key.start, n);
      }
      forall i | 0 < i < |rest| ensures NewlineBetween(raw, rest[i - 1].value.end, rest[i].key.start) {
        assert NewlineBetween(raw, placed[i].value.end, placed[i + 1].key.start);
      }
      SeparatedIsLaidOut(raw, rest, lines[1..], l.line.end);
    }
  }

}
