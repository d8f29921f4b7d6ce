/**
 The format-preserving editor: a `Document` keeps the raw text and records replacements, deletions and insertions.
 What `Get` answers is a plain map of overrides over the parsed values, and what `Bytes` prints is the raw text with
 exactly the recorded edits made.
 */
module DocumentEditor {
  import opened Results
  import opened Paths
  import opened StringWriter
  import opened DocumentText
  import opened DocumentValues
  import Lexer

  datatype Kind =
    | StringKind | IntegerKind | FloatKind | BoolKind | DatetimeKind | ArrayKind | InlineTableKind | InvalidKind

  /** A Go value handed to the editor: a string, or anything else with what the writer prints for it, if it can. */
  datatype Value = Text(s: string) | Other(kind: Kind, printed: Option<string>)

  function ToOption(r: Result<string, WriteFault>): Option<string> {
    match r
    case Ok(s) => Some(s)
    case Err(_) => None
  }

  function FormatValue(v: Value): Option<string> {
    match v
    case Text(s) => ToOption(Quote(s))
    case Other(_, printed) => printed
  }

  /** A parsed key and value; `value` is what `Get` has parsed from `raw`, or what `Set` has put in its place. */
  datatype Entry = Entry(pathKey: string, raw: string, valueSpan: Span, lineSpan: Span, kind: Kind, value: Option<Value>)

  /** A string that replaces a literal string stays one when it can. */
  function FormatFor(entry: Entry, v: Value): Option<string> {
    if entry.kind.StringKind? && v.Text? then ToOption(FormatStringLike(entry.raw, v.s))
    else FormatValue(v)
  }

  /** A new key and value; it goes after the entry at `afterPath`, or to the end when that is empty. */
  datatype Insertion = Insertion(afterPath: string, pathKey: string, path: KeyPath)

  function FormatKeyValue(path: Path, v: Value): Option<string> {
    match FormatValue(v)
    case None => None
    case Some(value) =>
      match FormatPath(path)
      case Err(_) => None
      case Ok(key) => Some(key + " = " + value + "\n")
  }

  /** The text an added line starts with, so that it does not continue an unfinished last line. */
  function EndOfText(raw: string): string {
    if raw != "" && raw[|raw| - 1] != '\n' then "\n" else ""
  }

  type Parser = string -> Option<Value>

  // ----- The operations the recorded edits stand for -----

  function EditOf(pathKey: string, replacements: map<string, string>, deletions: set<string>): Edit {
    if pathKey in deletions then Remove
    else if pathKey in replacements then Replace(replacements[pathKey])
    else Keep
  }

  function LineOf(e: Entry, replacements: map<string, string>, deletions: set<string>): Line {
    Line(e.lineSpan, e.valueSpan, EditOf(e.pathKey, replacements, deletions))
  }

  function LinesOf(entries: seq<Entry>, replacements: map<string, string>, deletions: set<string>): seq<Line> {
    seq(|entries|, i requires 0 <= i < |entries| => LineOf(entries[i], replacements, deletions))
  }

  /** What the entries tell of where insertions go. */
  datatype Anchors = Anchors(raw: string, byPath: map<string, nat>, lineEnds: seq<nat>)

  function InsertionOp(ins: Insertion, a: Anchors, pending: map<string, Value>, order: nat): Option<Op> {
    if ins.pathKey !in pending then None
    else
      match FormatKeyValue(ins.path, pending[ins.pathKey])
      case None => None
      case Some(text) =>
        if ins.afterPath == "" then Some(Op(|a.raw|, |a.raw|, EndOfText(a.raw) + text, order))
        else if ins.afterPath in a.byPath && a.byPath[ins.afterPath] < |a.lineEnds| then
          var at := a.lineEnds[a.byPath[ins.afterPath]];
          Some(Op(at, at, text, order))
        else None
  }

  function InsertionOps(insertions: seq<Insertion>, a: Anchors, pending: map<string, Value>, order: nat): seq<Op> {
    if insertions == [] then []
    else
      var before := InsertionOps(insertions[..|insertions| - 1], a, pending, order);
      match InsertionOp(insertions[|insertions| - 1], a, pending, order + |before|)
      case None => before
      case Some(op) => before + [op]
  }

  // ----- Facts about the operations -----

  lemma {:induction false} LineOpsSnoc(lines: seq<Line>, l: Line, order: nat)
    ensures LineOps(lines + [l], order) == LineOps(lines, order) + OpAt(l, order + |LineOps(lines, order)|)
    decreases |lines|
  {
    hide LineOp;
    if lines == [] {
      assert [] + [l] == [l] && [l][1..] == [];
      LineOpsHead([l], order);
    } else {
      var here := OpAt(lines[0], order);
      assert (lines + [l])[1..] == lines[1..] + [l];
      LineOpsSnoc(lines[1..], l, order + |here|);
      LineOpsHead(lines, order);
      LineOpsHead(lines + [l], order);
    }
  }

  lemma {:induction false} LineOpsNumbered(lines: seq<Line>)
    ensures Numbered(LineOps(lines, 0))
    decreases |lines|
  {
    if lines != [] {
      var front, last := lines[..|lines| - 1], lines[|lines| - 1];
      LineOpsNumbered(front);
      LineOpsSnoc(front, last, 0);
      assert lines == front + [last];
    }
  }

  /** Insertions are empty spans at anchors, numbered from `order`. */
  predicate PointsFrom(ops: seq<Op>, a: Anchors, order: nat) {
    && (forall i :: 0 <= i < |ops| ==> ops[i].order == order + i && ops[i].start == ops[i].end)
    && (forall i :: 0 <= i < |ops| ==> ops[i].start == |a.raw| || ops[i].start in a.lineEnds)
  }

  lemma {:induction false} InsertionOpsMeans(insertions: seq<Insertion>, a: Anchors, pending: map<string, Value>, order: nat)
    ensures PointsFrom(InsertionOps(insertions, a, pending, order), a, order)
  {
    hide InsertionOp;
    if insertions != [] {
      var front, last := insertions[..|insertions| - 1], insertions[|insertions| - 1];
      InsertionOpsMeans(front, a, pending, order);
      InsertionOpMeans(last, a, pending, order + |InsertionOps(front, a, pending, order)|);
    }
  }

  lemma InsertionOpMeans(ins: Insertion, a: Anchors, pending: map<string, Value>, order: nat)
    ensures match InsertionOp(ins, a, pending, order)
            case None => true
            case Some(op) => op.order == order && op.start == op.end && (op.start == |a.raw| || op.start in a.lineEnds)
  {
    hide FormatKeyValue;
  }

  lemma {:induction false} LaidOutInside(raw: string, lines: seq<Line>, from: nat, i: nat)
    requires LaidOutFrom(raw, lines, from) && i < |lines|
    ensures lines[i].line.end <= |raw|
    decreases |lines|
  {
    if i > 0 {
      LaidOutInside(raw, lines[1..], lines[0].line.end, i - 1);
    }
  }

  /** A document nothing has been asked of is its raw text. */
  lemma {:induction false} UntouchedRenders(raw: string, lines: seq<Line>, from: nat)
    requires LaidOutFrom(raw, lines, from) && forall i :: 0 <= i < |lines| ==> lines[i].edit.Keep?
    ensures Rendered(raw, lines, [], from) == raw[from..]
    decreases |lines|
  {
    if lines != [] {
      var l := lines[0];
      UntouchedRenders(raw, lines[1..], l.line.end);
      assert raw[from..] == raw[from..l.line.start] + raw[l.line.start..l.line.end] + raw[l.line.end..];
    }
  }

  // ----- What is recorded, and what it makes of the document -----

  datatype Edits = Edits(
    entries: seq<Entry>, byPath: map<string, nat>, replacements: map<string, string>, deletions: set<string>,
    insertions: seq<Insertion>, pending: map<string, Value>)

  /** The last entry of every path is the one found by it. */
  ghost predicate Indexed(d: Edits) {
    && (forall k :: k in d.byPath ==> d.byPath[k] < |d.entries| && d.entries[d.byPath[k]].pathKey == k)
    && (forall i :: 0 <= i < |d.entries| ==>
          d.entries[i].pathKey in d.byPath && i <= d.byPath[d.entries[i].pathKey])
  }

  /** What is printed for an entry is what `Get` answers for it. */
  ghost predicate Shows(d: Edits, parse: Parser, k: string)
    requires Indexed(d) && k in d.byPath
  {
    var e := d.entries[d.byPath[k]];
    if k in d.replacements then e.value.Some? && FormatFor(e, e.value.value) == Some(d.replacements[k])
    else k !in d.deletions && e.value.Some? ==> e.value == parse(e.raw)
  }

  /** The insertion has its place, and is recorded under the key of its path. */
  predicate Anchored(d: Edits, ins: Insertion) {
    (ins.afterPath == "" || ins.afterPath in d.byPath) && ins.pathKey == Encode(ins.path)
  }

  ghost predicate Sound(d: Edits, parse: Parser) {
    && Indexed(d)
    && d.replacements.Keys <= d.byPath.Keys && d.deletions <= d.byPath.Keys && d.replacements.Keys !! d.deletions
    && (forall k :: k in d.byPath ==> Shows(d, parse, k))
    && (forall i :: 0 <= i < |d.insertions| ==> Anchored(d, d.insertions[i]))
  }

  ghost function Lookup(d: Edits, parse: Parser, k: string): Option<Value>
    requires Indexed(d)
  {
    if k in d.byPath then
      if k in d.deletions then None
      else
        var e := d.entries[d.byPath[k]];
        if e.value.Some? then e.value else parse(e.raw)
    else if k in d.pending then Some(d.pending[k])
    else None
  }

  /** The plain map the editor stands for: the value of every path, overridden by what was set and deleted. */
  ghost function View(d: Edits, parse: Parser): map<string, Value>
    requires Indexed(d)
  {
    map k | k in d.byPath.Keys + d.pending.Keys && Lookup(d, parse, k).Some? :: Lookup(d, parse, k).value
  }

  ghost function ViewWith(view: map<string, Value>, k: string, v: Option<Value>): map<string, Value> {
    match v
    case None => view - {k}
    case Some(x) => view[k := x]
  }

  lemma ViewChanges(d: Edits, d': Edits, parse: Parser, k: string)
    requires Indexed(d) && Indexed(d') && forall j :: j != k ==> Lookup(d', parse, j) == Lookup(d, parse, j)
    ensures View(d', parse) == ViewWith(View(d, parse), k, Lookup(d', parse, k))
  {
    hide Indexed;
    InView(d, parse);
    InView(d', parse);
  }

  lemma InView(d: Edits, parse: Parser)
    requires Indexed(d)
    ensures forall j :: j in View(d, parse) <==> Lookup(d, parse, j).Some?
    ensures forall j :: j in View(d, parse) ==> View(d, parse)[j] == Lookup(d, parse, j).value
  {
  }

  function WithValue(d: Edits, k: string, v: Value): Edits
    requires k in d.byPath && d.byPath[k] < |d.entries|
  {
    d.(entries := d.entries[d.byPath[k] := d.entries[d.byPath[k]].(value := Some(v))])
  }

  lemma WithValueLookup(d: Edits, parse: Parser, k: string, v: Value)
    requires Indexed(d) && k in d.byPath
    ensures Indexed(WithValue(d, k, v))
    ensures forall j :: j != k ==> Lookup(WithValue(d, k, v), parse, j) == Lookup(d, parse, j)
    ensures k !in d.deletions ==> Lookup(WithValue(d, k, v), parse, k) == Some(v)
    ensures forall j :: j in d.byPath && j != k ==> Shows(WithValue(d, k, v), parse, j) == Shows(d, parse, j)
  {
    hide FormatFor;
  }

  /** Parsing a value on demand changes nothing that shows. */
  lemma CachedKeeps(d: Edits, parse: Parser, k: string, v: Value)
    requires Sound(d, parse) && k in d.byPath && k !in d.deletions
    requires d.entries[d.byPath[k]].value.None? && parse(d.entries[d.byPath[k]].raw) == Some(v)
    ensures Sound(WithValue(d, k, v), parse) && View(WithValue(d, k, v), parse) == View(d, parse)
  {
    WithValueLookup(d, parse, k, v);
    assert k !in d.replacements by {
      assert Shows(d, parse, k);
    }
    assert Lookup(d, parse, k) == Some(v);
    ViewChanges(d, WithValue(d, k, v), parse, k);
    InView(d, parse);
  }

  function Replaced(d: Edits, k: string, v: Value, text: string): Edits
    requires k in d.byPath && d.byPath[k] < |d.entries|
  {
    WithValue(d, k, v).(replacements := d.replacements[k := text], deletions := d.deletions - {k},
                        pending := d.pending - {k})
  }

  lemma ReplacedKeeps(d: Edits, parse: Parser, k: string, v: Value, text: string)
    requires Sound(d, parse) && k in d.byPath && FormatFor(d.entries[d.byPath[k]], v) == Some(text)
    ensures var d' := Replaced(d, k, v, text); Sound(d', parse) && View(d', parse) == View(d, parse)[k := v]
  {
    hide FormatFor, WithValue;
    WithValueLookup(d, parse, k, v);
    ValueOnly(d, k, v, text);
    var d' := Replaced(d, k, v, text);
    assert Indexed(d');
    forall j | j in d'.byPath ensures Shows(d', parse, j) {
      if j != k {
        assert Shows(d, parse, j);
      }
    }
    ViewChanges(d, d', parse, k);
  }

  /** The entry at `k` differs in its value only, so it is printed as before. */
  lemma ValueOnly(d: Edits, k: string, v: Value, text: string)
    requires k in d.byPath && d.byPath[k] < |d.entries| && FormatFor(d.entries[d.byPath[k]], v) == Some(text)
    ensures var d' := WithValue(d, k, v);
      && d' == d.(entries := d'.entries) && |d'.entries| == |d.entries|
      && d'.entries[d.byPath[k]].value == Some(v) && FormatFor(d'.entries[d.byPath[k]], v) == Some(text)
      && forall i :: 0 <= i < |d.entries| && i != d.byPath[k] ==> d'.entries[i] == d.entries[i]
  {
  }

  function Added(d: Edits, ins: Insertion, v: Value): Edits {
    d.(pending := d.pending[ins.pathKey := v], insertions := d.insertions + [ins])
  }

  lemma AddedKeeps(d: Edits, parse: Parser, ins: Insertion, v: Value)
    requires Sound(d, parse) && Anchored(d, ins)
    ensures Sound(Added(d, ins, v), parse)
    ensures View(Added(d, ins, v), parse)
         == if ins.pathKey in d.byPath then View(d, parse) else View(d, parse)[ins.pathKey := v]
  {
    hide FormatFor;
    var d' := Added(d, ins, v);
    assert Indexed(d');
    forall j | j in d'.byPath ensures Shows(d', parse, j) {
      assert Shows(d, parse, j);
    }
    ViewChanges(d, d', parse, ins.pathKey);
    InView(d, parse);
  }

  function Removed(d: Edits, k: string): Edits {
    if k in d.byPath then d.(deletions := d.deletions + {k}, replacements := d.replacements - {k})
    else d.(pending := d.pending - {k})
  }

  lemma RemovedKeeps(d: Edits, parse: Parser, k: string)
    requires Sound(d, parse)
    ensures Sound(Removed(d, k), parse) && View(Removed(d, k), parse) == View(d, parse) - {k}
  {
    hide View, Sound;
    RemovedSound(d, parse, k);
    IndexedOf(d, parse);
    IndexedOf(Removed(d, k), parse);
    ViewChanges(d, Removed(d, k), parse, k);
  }

  lemma RemovedSound(d: Edits, parse: Parser, k: string)
    requires Sound(d, parse)
    ensures Sound(Removed(d, k), parse)
  {
    hide FormatFor;
    var d' := Removed(d, k);
    assert Indexed(d');
    forall j | j in d'.byPath ensures Shows(d', parse, j) {
      assert Shows(d, parse, j);
    }
  }

  // ----- The operations of a document -----

  function Lines(d: Edits): seq<Line> {
    LinesOf(d.entries, d.replacements, d.deletions)
  }

  function Places(raw: string, d: Edits): Anchors {
    Anchors(raw, d.byPath, seq(|d.entries|, i requires 0 <= i < |d.entries| => d.entries[i].lineSpan.end))
  }

  function Inserts(raw: string, d: Edits): seq<Op> {
    InsertionOps(d.insertions, Places(raw, d), d.pending, |LineOps(Lines(d), 0)|)
  }

  lemma InsertsFit(raw: string, d: Edits)
    requires LaidOutFrom(raw, Lines(d), 0)
    ensures PointInserts(raw, Inserts(raw, d)) && AtLines(raw, Lines(d), Inserts(raw, d))
    ensures Numbered(LineOps(Lines(d), 0) + Inserts(raw, d))
  {
    LineOpsNumbered(Lines(d));
    InsertionOpsMeans(d.insertions, Places(raw, d), d.pending, |LineOps(Lines(d), 0)|);
    forall i | 0 <= i < |d.entries| ensures d.entries[i].lineSpan.end <= |raw| {
      LaidOutInside(raw, Lines(d), 0, i);
    }
    forall x | x in Inserts(raw, d) && x.start != |raw|
      ensures exists i :: 0 <= i < |Lines(d)| && x.start == Lines(d)[i].line.end
    {
      var i :| 0 <= i < |d.entries| && Places(raw, d).lineEnds[i] == x.start;
      assert Lines(d)[i].line.end == x.start;
    }
  }

  // ----- The document -----

  /** The path key of a dotted path. */
  function PathKey(path: string): Option<string> {
    match Lexer.ParseDottedKey(path)
    case Err(_) => None
    case Ok(parts) => Some(Encode(parts))
  }

  class Document {
    const raw: string
    const parse: Parser
    var entries: seq<Entry>
    var byPath: map<string, nat>
    var replacements: map<string, string>
    var deletions: set<string>
    var insertions: seq<Insertion>
    var pending: map<string, Value>

    ghost function Recorded(): Edits
      reads this
    {
      Edits(entries, byPath, replacements, deletions, insertions, pending)
    }

    ghost predicate Valid()
      reads this
    {
      Sound(Recorded(), parse)
    }

    ghost function Values(): map<string, Value>
      requires Valid()
      reads this
    {
      View(Recorded(), parse)
    }

    /** The entries as parsed, with nothing edited yet. */
    constructor (raw: string, parsed: seq<Entry>, parse: Parser)
      requires forall i :: 0 <= i < |parsed| ==> parsed[i].value.None?
      ensures Valid() && this.raw == raw && this.parse == parse
      ensures Recorded() == Edits(parsed, byPath, map[], {}, [], map[])
    {
      hide Indexed;
      this.raw, this.parse, entries, byPath := raw, parse, [], map[];
      replacements, deletions, insertions, pending := map[], {}, [], map[];
      new;
      IndexedNothing(Recorded());
      for i := 0 to |parsed|
        invariant Indexed(Recorded()) && Recorded() == Edits(parsed[..i], byPath, map[], {}, [], map[])
      {
        IndexedSnoc(Recorded(), parsed[i]);
        byPath := byPath[parsed[i].pathKey := |entries|];
        entries := entries + [parsed[i]];
      }
      FreshIsSound(Recorded(), parse);
    }

    method Get(path: string) returns (r: Option<Value>)
      requires Valid()
      modifies this`entries
      ensures Valid() && Values() == old(Values())
      ensures Lines(Recorded()) == old(Lines(Recorded())) && Inserts(raw, Recorded()) == old(Inserts(raw, Recorded()))
      ensures match PathKey(path)
              case None => r == None
              case Some(k) => r == if k in Values() then Some(Values()[k]) else None
    {
      var parts := Lexer.ParseDottedKey(path);
      if parts.Err? {
        return None;
      }
      var k := Encode(parts.value);
      InView(Recorded(), parse);
      if k !in byPath {
        return if k in pending then Some(pending[k]) else None;
      }
      if k in deletions {
        return None;
      }
      var at := byPath[k];
      if entries[at].value.None? {
        var value := parse(entries[at].raw);
        if value.None? {
          return None;
        }
        CachedKeeps(Recorded(), parse, k, value.value);
        entries := entries[at := entries[at].(value := value)];
        assert Recorded() == WithValue(old(Recorded()), k, value.value);
        assert Lines(Recorded()) == old(Lines(Recorded())) && Places(raw, Recorded()) == old(Places(raw, Recorded()));
        InView(Recorded(), parse);
      }
      return entries[at].value;
    }

    /** A failed call changes nothing. A path the document has loses its insertions, a new one gains another. */
    method Set(path: string, value: Value) returns (ok: bool)
      requires Valid()
      modifies this`entries, this`replacements, this`deletions, this`insertions, this`pending
      ensures Valid()
      ensures !ok ==> Recorded() == old(Recorded())
      ensures ok ==> PathKey(path).Some? && Values() == old(Values())[PathKey(path).value := value]
      ensures match PathKey(path)
              case None => !ok
              case Some(k) =>
                if k in byPath then
                  var text := FormatFor(old(entries[byPath[k]]), value);
                  ok == text.Some? && (ok ==> Recorded() == Replaced(old(Recorded()), k, value, text.value))
                else
                  && ok == FormatValue(value).Some?
                  && (ok ==> Recorded() == Added(old(Recorded()), Insertion("", k, Lexer.ParseDottedKey(path).value), value))
    {
      hide FormatFor, FormatValue, Sound, Replaced, Added;
      var parts := Lexer.ParseDottedKey(path);
      if parts.Err? {
        return false;
      }
      var k := Encode(parts.value);
      assert Indexed(Recorded()) by {
        IndexedOf(Recorded(), parse);
      }
      if k in byPath {
        var at := byPath[k];
        var text := FormatFor(entries[at], value);
        if text.None? {
          return false;
        }
        ReplacedKeeps(Recorded(), parse, k, value, text.value);
        entries := entries[at := entries[at].(value := Some(value))];
        replacements := replacements[k := text.value];
        deletions := deletions - {k};
        pending := pending - {k};
        ReplacedIs(old(Recorded()), k, value, text.value);
      } else {
        if FormatValue(value).None? {
          return false;
        }
        AddedKeeps(Recorded(), parse, Insertion("", k, parts.value), value);
        pending := pending[k := value];
        insertions := insertions + [Insertion("", k, parts.value)];
        AddedIs(old(Recorded()), Insertion("", k, parts.value), value);
      }
      return true;
    }

    /** The value is not looked at, and a path the document has keeps its own value: the line is only printed. */
    method InsertAfter(afterPath: string, path: string, value: Value) returns (ok: bool)
      requires Valid()
      modifies this`insertions, this`pending
      ensures Valid()
      ensures !ok ==> Recorded() == old(Recorded())
      ensures ok <==> PathKey(afterPath).Some? && PathKey(afterPath).value in byPath
                      && PathKey(afterPath).value !in deletions && PathKey(path).Some?
      ensures ok ==>
        var k := PathKey(path).value;
        && Values() == (if k in byPath then old(Values()) else old(Values())[k := value])
        && Recorded() == Added(old(Recorded()), Insertion(PathKey(afterPath).value, k, Lexer.ParseDottedKey(path).value), value)
    {
      hide Sound, Added;
      var afterParts := Lexer.ParseDottedKey(afterPath);
      if afterParts.Err? {
        return false;
      }
      var afterKey := Encode(afterParts.value);
      if afterKey !in byPath || afterKey in deletions {
        return false;
      }
      var parts := Lexer.ParseDottedKey(path);
      if parts.Err? {
        return false;
      }
      var k := Encode(parts.value);
      AddedKeeps(Recorded(), parse, Insertion(afterKey, k, parts.value), value);
      pending := pending[k := value];
      insertions := insertions + [Insertion(afterKey, k, parts.value)];
      AddedIs(old(Recorded()), Insertion(afterKey, k, parts.value), value);
      return true;
    }

    method Delete(path: string) returns (ok: bool)
      requires Valid()
      modifies this`replacements, this`deletions, this`pending
      ensures Valid()
      ensures !ok ==> Recorded() == old(Recorded())
      ensures ok <==> PathKey(path).Some? && (PathKey(path).value in byPath || PathKey(path).value in old(pending))
      ensures ok ==>
        Values() == old(Values()) - {PathKey(path).value} && Recorded() == Removed(old(Recorded()), PathKey(path).value)
    {
      hide Sound;
      var parts := Lexer.ParseDottedKey(path);
      if parts.Err? {
        return false;
      }
      var k := Encode(parts.value);
      RemovedKeeps(Recorded(), parse, k);
      if k !in byPath {
        if k !in pending {
          return false;
        }
        pending := pending - {k};
      } else {
        deletions := deletions + {k};
        replacements := replacements - {k};
      }
      return true;
    }

    /** The operations, numbered in the order they are found. */
    method CollectOps() returns (ops: seq<Op>)
      ensures ops == LineOps(Lines(Recorded()), 0) + Inserts(raw, Recorded())
    {
      hide InsertionOp;
      ops := [];
      ghost var lines := Lines(Recorded());
      for i := 0 to |entries|
        invariant ops == LineOps(lines[..i], 0)
      {
        var e := entries[i];
        LineOpsSnoc(lines[..i], lines[i], 0);
        assert lines[..i] + [lines[i]] == lines[..i + 1];
        if e.pathKey in deletions {
          ops := ops + [Op(e.lineSpan.start, e.lineSpan.end, "", |ops|)];
        } else if e.pathKey in replacements {
          ops := ops + [Op(e.valueSpan.start, e.valueSpan.end, replacements[e.pathKey], |ops|)];
        }
      }
      assert lines[..|entries|] == lines;
      ghost var ofLines := ops;
      var places := Anchors(raw, byPath, seq(|entries|, i requires 0 <= i < |entries| reads this => entries[i].lineSpan.end));
      assert places == Places(raw, Recorded());
      for i := 0 to |insertions|
        invariant ops == ofLines + InsertionOps(insertions[..i], places, pending, |ofLines|)
      {
        assert insertions[..i + 1][..i] == insertions[..i];
        var op := InsertionOp(insertions[i], places, pending, |ops|);
        if op.Some? {
          ops := ops + [op.value];
        }
      }
      assert insertions[..|insertions|] == insertions;
    }

    /** When the parsed entries stand on lines of their own, the output is the raw text with exactly the edits made. */
    method Bytes() returns (out: string)
      ensures LaidOutFrom(raw, Lines(Recorded()), 0) ==> out == Rendered(raw, Lines(Recorded()), Inserts(raw, Recorded()), 0)
      ensures replacements == map[] && deletions == {} && insertions == [] ==> out == raw
    {
      ghost var lines, inserts := Lines(Recorded()), Inserts(raw, Recorded());
      if |replacements| == 0 && |deletions| == 0 && |insertions| == 0 {
        if LaidOutFrom(raw, lines, 0) {
          UntouchedRenders(raw, lines, 0);
          assert raw[0..] == raw;
        }
        return raw;
      }
      var ops := CollectOps();
      ops := SortOps(ops);
      out := "";
      var cursor: nat := 0;
      for n := 0 to |ops|
        invariant cursor <= |raw| && Splice(raw, ops, 0) == out + Splice(raw, ops[n..], cursor)
      {
        var op := ops[n];
        assert ops[n..][1..] == ops[n + 1..];
        if !(op.start < cursor || op.end < op.start || op.end > |raw|) {
          out := out + raw[cursor..op.start] + op.text;
          cursor := op.end;
        }
      }
      assert ops[|ops|..] == [];
      out := out + raw[cursor..];
      if LaidOutFrom(raw, lines, 0) {
        InsertsFit(raw, Recorded());
        SpliceRenders(raw, lines, inserts);
      }
    }
  }

  lemma IndexedNothing(d: Edits)
    requires d.entries == [] && d.byPath == map[]
    ensures Indexed(d)
  {
  }

  lemma IndexedSnoc(d: Edits, e: Entry)
    requires Indexed(d)
    ensures Indexed(d.(entries := d.entries + [e], byPath := d.byPath[e.pathKey := |d.entries|]))
  {
  }

  lemma FreshIsSound(d: Edits, parse: Parser)
    requires Indexed(d) && d == Edits(d.entries, d.byPath, map[], {}, [], map[])
    requires forall i :: 0 <= i < |d.entries| ==> d.entries[i].value.None?
    ensures Sound(d, parse)
  {
    assert forall k :: k in d.byPath ==> Shows(d, parse, k);
  }

  lemma IndexedOf(d: Edits, parse: Parser)
    requires Sound(d, parse)
    ensures Indexed(d)
  {
  }

  lemma ReplacedIs(d: Edits, k: string, v: Value, text: string)
    requires k in d.byPath && d.byPath[k] < |d.entries|
    ensures Replaced(d, k, v, text)
         == d.(entries := d.entries[d.byPath[k] := d.entries[d.byPath[k]].(value := Some(v))],
               replacements := d.replacements[k := text], deletions := d.deletions - {k}, pending := d.pending - {k})
  {
  }

  lemma AddedIs(d: Edits, ins: Insertion, v: Value)
    ensures Added(d, ins, v) == d.(pending := d.pending[ins.pathKey := v], insertions := d.insertions + [ins])
  {
  }
}
