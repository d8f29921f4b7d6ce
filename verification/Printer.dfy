/**
 The printer for trees of Go maps. A map is an `InlineTable` here, listed in the order its keys are printed in, and the
 document it prints is described by the statements it consists of.
 */
module Printer {
  import opened Results
  import opened Decimal
  import opened Paths
  import opened StringWriter
  import opened TableMachine

  // ----- Values -----

  function FormatAtom(a: Atom): Result<string, WriteFault> {
    match a
    case Text(s) => Quote(s)
    case Integer(n) => Ok(OfInt(n))
    case Boolean(b) => Ok(if b then "true" else "false")
    case Unread(raw) => Ok(raw)
  }

  /** `writeAnyValue`, with `writeInlineAnyMap` for maps. */
  function FormatLiteral(v: Literal): Result<string, WriteFault>
    decreases v, 1
  {
    match v
    case Scalar(a) => FormatAtom(a)
    case Array(items) =>
      var text :- FormatItems(items);
      Ok("[" + text + "]")
    case InlineTable(entries) =>
      var text :- FormatEntries(entries);
      Ok("{ " + text + " }")
  }

  function FormatItems(items: seq<Literal>): Result<string, WriteFault>
    decreases items, 0
  {
    if items == [] then Ok("")
    else
      var first :- FormatLiteral(items[0]);
      var rest :- FormatItemsAfter(items[1..]);
      Ok(first + rest)
  }

  /** The items after the first, each behind a comma. */
  function FormatItemsAfter(items: seq<Literal>): Result<string, WriteFault>
    decreases items, 0
  {
    if items == [] then Ok("")
    else
      var first :- FormatLiteral(items[0]);
      var rest :- FormatItemsAfter(items[1..]);
      Ok(", " + (first + rest))
  }

  function FormatEntry(e: Field): Result<string, WriteFault>
    decreases e, 0
  {
    var key :- FormatKey(e.key);
    var value :- FormatLiteral(e.value);
    Ok(key + " = " + value)
  }

  function FormatEntries(entries: seq<Field>): Result<string, WriteFault>
    decreases entries, 0
  {
    if entries == [] then Ok("")
    else
      var first :- FormatEntry(entries[0]);
      var rest :- FormatEntriesAfter(entries[1..]);
      Ok(first + rest)
  }

  function FormatEntriesAfter(entries: seq<Field>): Result<string, WriteFault>
    decreases entries, 0
  {
    if entries == [] then Ok("")
    else
      var first :- FormatEntry(entries[0]);
      var rest :- FormatEntriesAfter(entries[1..]);
      Ok(", " + (first + rest))
  }

  // ----- What is printed as a table -----

  predicate IsMap(v: Literal) {
    v.InlineTable?
  }

  /** `hasNonEmptyTableLikeDescendantAny`. */
  predicate HasTableDescendant(v: Literal)
    decreases v
  {
    match v
    case Scalar(_) => false
    case Array(items) => exists i :: 0 <= i < |items| && HasTableDescendant(items[i])
    case InlineTable(entries) => entries != [] && exists i :: 0 <= i < |entries| && HasTableDescendant(entries[i].value)
  }

  predicate HoldsTable(entries: seq<Field>) {
    exists i :: 0 <= i < |entries| && HasTableDescendant(entries[i].value)
  }

  /** `isArrayOfTablesAny`. */
  predicate IsArrayOfTables(v: Literal) {
    v.Array? && v.items != [] && (forall i :: 0 <= i < |v.items| ==> IsMap(v.items[i]))
    && (|| (forall i :: 0 <= i < |v.items| ==> v.items[i].entries == [])
        || exists i :: 0 <= i < |v.items| && v.items[i].entries != [] && HoldsTable(v.items[i].entries))
  }

  predicate IsTableLike(v: Literal) {
    IsMap(v) || IsArrayOfTables(v)
  }

  /** No value ever counts as a descendant that is a table: the search has no case that finds one. */
  lemma {:induction false} NothingIsTableDescendant(v: Literal)
    ensures !HasTableDescendant(v)
    decreases v
  {
    match v
    case Scalar(_) =>
    case Array(items) =>
      forall i | 0 <= i < |items| ensures !HasTableDescendant(items[i]) {
        NothingIsTableDescendant(items[i]);
      }
    case InlineTable(entries) =>
      forall i | 0 <= i < |entries| ensures !HasTableDescendant(entries[i].value) {
        NothingIsTableDescendant(entries[i].value);
      }
  }

  /** So an array is printed as an array of tables exactly when it is a non-empty list of empty maps. */
  lemma ArrayOfTablesIff(v: Literal)
    ensures IsArrayOfTables(v) <==>
              v.Array? && v.items != [] && forall i :: 0 <= i < |v.items| ==> v.items[i] == InlineTable([])
  {
    if v.Array? {
      forall i, j | 0 <= i < |v.items| && IsMap(v.items[i]) && 0 <= j < |v.items[i].entries|
        ensures !HasTableDescendant(v.items[i].entries[j].value)
      {
        NothingIsTableDescendant(v.items[i].entries[j].value);
      }
    }
  }

  // ----- The statements of a document -----

  /** The lines of a map's plain values. */
  function PrintValues(fields: seq<Field>): seq<Statement> {
    if fields == [] then []
    else
      (if IsTableLike(fields[0].value) then [] else [KeyValue([fields[0].key], fields[0].value)])
      + PrintValues(fields[1..])
  }

  /** `encodeAnyMapDocument`: the plain values first, then the tables, each under its full path. */
  function PrintMap(fields: seq<Field>, path: Path): seq<Statement>
    decreases fields, 2
  {
    PrintValues(fields) + PrintTables(fields, path)
  }

  function PrintTables(fields: seq<Field>, path: Path): seq<Statement>
    decreases fields, 1
  {
    if fields == [] then [] else PrintTable(fields[0], path) + PrintTables(fields[1..], path)
  }

  function PrintTable(f: Field, path: Path): seq<Statement>
    decreases f, 0
  {
    var here := path + [f.key];
    match f.value
    case InlineTable(entries) => [Header(here)] + PrintMap(entries, here)
    case Array(items) => if IsArrayOfTables(f.value) then PrintElements(items, here) else []
    case Scalar(_) => []
  }

  function PrintElements(items: seq<Literal>, path: KeyPath): seq<Statement>
    requires forall i :: 0 <= i < |items| ==> IsMap(items[i])
    decreases items, 0
  {
    if items == [] then []
    else
      assert IsMap(items[0]);
      [ArrayHeader(path)] + PrintMap(items[0].entries, path) + PrintElements(items[1..], path)
  }

  // ----- The text of statements -----

  function FormatStatement(s: Statement): Result<string, WriteFault> {
    match s
    case Header(path) =>
      var text :- FormatPath(path);
      Ok("\n[" + text + "]\n")
    case ArrayHeader(path) =>
      var text :- FormatPath(path);
      Ok("\n[[" + text + "]]\n")
    case KeyValue(key, value) =>
      var keyText :- FormatPath(key);
      var valueText :- FormatLiteral(value);
      Ok(keyText + " = " + valueText + "\n")
  }

  function FormatStatements(statements: seq<Statement>): Result<string, WriteFault> {
    if statements == [] then Ok("")
    else
      var first :- FormatStatement(statements[0]);
      var rest :- FormatStatements(statements[1..]);
      Ok(first + rest)
  }

  /** What is in the buffer after `text` has been added to it. */
  function After(buf: string, text: Result<string, WriteFault>): Result<string, WriteFault> {
    match text
    case Ok(t) => Ok(buf + t)
    case Err(f) => Err(f)
  }

  function AfterStatements(buf: string, statements: seq<Statement>): Result<string, WriteFault> {
    After(buf, FormatStatements(statements))
  }

  // ----- The writer -----

  method WriteAnyValue(buf: string, v: Literal) returns (r: Result<string, WriteFault>)
    ensures r == After(buf, FormatLiteral(v))
    decreases v, 1
  {
    hide Quote, OfInt;
    match v {
      case Scalar(Text(s)) =>
        var text :- WriteQuotedString(s);
        r := Ok(buf + text);
      case Scalar(Integer(n)) => r := Ok(buf + OfInt(n));
      case Scalar(Boolean(b)) => r := Ok(buf + if b then "true" else "false");
      case Scalar(Unread(raw)) => r := Ok(buf + raw);
      case Array(items) =>
        var out := buf + "[";
        for i := 0 to |items|
          invariant After(buf + "[", FormatItems(items))
                 == After(out, if i == 0 then FormatItems(items[i..]) else FormatItemsAfter(items[i..]))
        {
          ghost var was := out;
          if i > 0 {
            out := out + ", ";
          }
          ItemsStep(was, items, i);
          out :- WriteAnyValue(out, items[i]);
        }
        Whole(buf, "[", out, FormatItems(items), "]");
        r := Ok(out + "]");
      case InlineTable(_) => r := WriteInlineAnyMap(buf, v);
    }
  }

  method WriteInlineAnyMap(buf: string, m: Literal) returns (r: Result<string, WriteFault>)
    requires IsMap(m)
    ensures r == After(buf, FormatLiteral(m))
    decreases m, 0
  {
    hide FormatKey;
    var entries := m.entries;
    var out := buf + "{ ";
    for i := 0 to |entries|
      invariant After(buf + "{ ", FormatEntries(entries))
             == After(out, if i == 0 then FormatEntries(entries[i..]) else FormatEntriesAfter(entries[i..]))
    {
      ghost var was := out;
      if i > 0 {
        out := out + ", ";
      }
      EntriesStep(was, entries, i);
      var key :- FormatKey(entries[i].key);
      out :- WriteAnyValue(out + key + " = ", entries[i].value);
    }
    Whole(buf, "{ ", out, FormatEntries(entries), " }");
    r := Ok(out + " }");
  }

  lemma ItemsStep(out: string, items: seq<Literal>, i: nat)
    requires i < |items|
    ensures var before := if i > 0 then out + ", " else out;
      After(out, if i == 0 then FormatItems(items[i..]) else FormatItemsAfter(items[i..]))
      == match FormatLiteral(items[i])
         case Ok(t) => After(before + t, FormatItemsAfter(items[i + 1..]))
         case Err(f) => Err(f)
  {
    assert items[i..][1..] == items[i + 1..];
    if FormatLiteral(items[i]).Ok? && FormatItemsAfter(items[i + 1..]).Ok? {
      var t, rest := FormatLiteral(items[i]).value, FormatItemsAfter(items[i + 1..]).value;
      assert out + (", " + (t + rest)) == out + ", " + t + rest && out + (t + rest) == out + t + rest;
    }
  }

  lemma EntriesStep(out: string, entries: seq<Field>, i: nat)
    requires i < |entries|
    ensures var before := if i > 0 then out + ", " else out;
      After(out, if i == 0 then FormatEntries(entries[i..]) else FormatEntriesAfter(entries[i..]))
      == match FormatKey(entries[i].key)
         case Err(f) => Err(f)
         case Ok(key) =>
           match FormatLiteral(entries[i].value)
           case Ok(t) => After(before + key + " = " + t, FormatEntriesAfter(entries[i + 1..]))
           case Err(f) => Err(f)
  {
    hide FormatKey;
    assert entries[i..][1..] == entries[i + 1..];
    if FormatEntry(entries[i]).Ok? && FormatEntriesAfter(entries[i + 1..]).Ok? {
      var key, t := FormatKey(entries[i].key).value, FormatLiteral(entries[i].value).value;
      var rest := FormatEntriesAfter(entries[i + 1..]).value;
      assert out + (", " + (key + " = " + t + rest)) == out + ", " + key + " = " + t + rest;
      assert out + (key + " = " + t + rest) == out + key + " = " + t + rest;
    }
  }

  lemma Whole(buf: string, open: string, out: string, text: Result<string, WriteFault>, close: string)
    requires After(buf + open, text) == After(out, Ok(""))
    ensures text.Ok? && out + close == buf + (open + text.value + close)
  {
    assert out + "" == out;
    assert buf + open + text.value + close == buf + (open + text.value + close);
  }

  lemma AfterFirst(out: string, first: Statement, rest: seq<Statement>)
    ensures AfterStatements(out, [first] + rest)
         == match FormatStatement(first)
            case Ok(text) => AfterStatements(out + text, rest)
            case Err(f) => Err(f)
  {
    hide FormatStatement;
    assert ([first] + rest)[1..] == rest;
    if FormatStatement(first).Ok? && FormatStatements(rest).Ok? {
      assert out + (FormatStatement(first).value + FormatStatements(rest).value)
          == out + FormatStatement(first).value + FormatStatements(rest).value;
    }
  }

  /** Printing two lists of statements one after the other. */
  lemma {:induction false} AfterBoth(out: string, a: seq<Statement>, b: seq<Statement>)
    ensures AfterStatements(out, a + b)
         == match AfterStatements(out, a)
            case Ok(mid) => AfterStatements(mid, b)
            case Err(f) => Err(f)
    decreases |a|
  {
    hide FormatStatement, AfterStatements;
    if a == [] {
      assert a + b == b && out + "" == out;
      assert AfterStatements(out, []) == Ok(out) by {
        NothingAfter(out);
      }
    } else {
      assert a + b == [a[0]] + (a[1..] + b) && a == [a[0]] + a[1..];
      AfterFirst(out, a[0], a[1..] + b);
      AfterFirst(out, a[0], a[1..]);
      if FormatStatement(a[0]).Ok? {
        AfterBoth(out + FormatStatement(a[0]).value, a[1..], b);
      }
    }
  }

  lemma NothingAfter(out: string)
    ensures AfterStatements(out, []) == Ok(out)
  {
    assert out + "" == out;
  }

  /** `writeHeader`, with the blank line in front of it. */
  method WriteHeader(buf: string, path: KeyPath, isArray: bool) returns (r: Result<string, WriteFault>)
    ensures r == After(buf, FormatStatement(if isArray then ArrayHeader(path) else Header(path)))
  {
    hide FormatKey;
    var out := buf + "\n" + if isArray then "[[" else "[";
    ghost var open := out;
    for i := 0 to |path|
      invariant After(open, FormatPath(path)) == if i == |path| then Ok(out) else After(if i > 0 then out + "." else out, FormatPath(path[i..]))
    {
      if i > 0 {
        out := out + ".";
      }
      assert path[i..][1..] == path[i + 1..];
      var key :- FormatKey(path[i]);
      if i + 1 < |path| && FormatPath(path[i + 1..]).Ok? {
        assert out + (key + "." + FormatPath(path[i + 1..]).value) == out + key + "." + FormatPath(path[i + 1..]).value;
      }
      out := out + key;
    }
    var close := if isArray then "]]\n" else "]\n";
    assert out + close == open + FormatPath(path).value + close;
    assert open + FormatPath(path).value + close
        == buf + ("\n" + (if isArray then "[[" else "[") + FormatPath(path).value + close);
    assert "\n" + "[[" == "\n[[" && "\n" + "[" == "\n[";
    return Ok(out + close);
  }

  lemma KeyValueText(buf: string, key: Segment, v: Literal)
    ensures After(buf, FormatStatement(KeyValue([key], v)))
         == match FormatKey(key)
            case Err(f) => Err(f)
            case Ok(k) =>
              match FormatLiteral(v)
              case Err(f) => Err(f)
              case Ok(t) => Ok(buf + k + " = " + t + "\n")
  {
    hide FormatKey, FormatLiteral;
    assert FormatPath([key]) == FormatKey(key);
    if FormatKey(key).Ok? && FormatLiteral(v).Ok? {
      var k, t := FormatKey(key).value, FormatLiteral(v).value;
      assert buf + (k + " = " + t + "\n") == buf + k + " = " + t + "\n";
    }
  }

  method WriteKeyValueAny(buf: string, key: Segment, v: Literal) returns (r: Result<string, WriteFault>)
    ensures r == After(buf, FormatStatement(KeyValue([key], v)))
  {
    hide FormatKey, FormatLiteral, FormatStatement;
    KeyValueText(buf, key, v);
    var k :- FormatKey(key);
    var out := buf + k + " = ";
    out :- WriteAnyValue(out, v);
    return Ok(out + "\n");
  }

  /** `encodeAnyMapDocument`. */
  method EncodeAnyMapDocument(buf: string, fields: seq<Field>, path: Path) returns (r: Result<string, WriteFault>)
    ensures r == AfterStatements(buf, PrintMap(fields, path))
    decreases fields, 2
  {
    hide FormatStatement, AfterStatements, IsTableLike;
    var out := buf;
    for i := 0 to |fields|
      invariant AfterStatements(buf, PrintMap(fields, path))
             == AfterStatements(out, PrintValues(fields[i..]) + PrintTables(fields, path))
    {
      assert fields[i..][1..] == fields[i + 1..];
      var rest := PrintValues(fields[i + 1..]) + PrintTables(fields, path);
      if IsTableLike(fields[i].value) {
        assert PrintValues(fields[i..]) == PrintValues(fields[i + 1..]);
        continue;
      }
      var line := KeyValue([fields[i].key], fields[i].value);
      assert PrintValues(fields[i..]) + PrintTables(fields, path) == [line] + rest;
      AfterFirst(out, line, rest);
      assert AfterStatements(out, [line] + rest).Err? || FormatStatement(line).Ok?;
      out :- WriteKeyValueAny(out, fields[i].key, fields[i].value);
    }
    assert PrintValues([]) + PrintTables(fields, path) == PrintTables(fields, path);
    for i := 0 to |fields|
      invariant AfterStatements(buf, PrintMap(fields, path)) == AfterStatements(out, PrintTables(fields[i..], path))
    {
      assert fields[i..][1..] == fields[i + 1..];
      AfterBoth(out, PrintTable(fields[i], path), PrintTables(fields[i + 1..], path));
      out :- EncodeTable(out, fields[i], path);
    }
    NothingAfter(out);
    return Ok(out);
  }

  /** The table or the array of tables one key is printed as; nothing when it is a plain value. */
  method EncodeTable(buf: string, f: Field, path: Path) returns (r: Result<string, WriteFault>)
    ensures r == AfterStatements(buf, PrintTable(f, path))
    decreases f, 0
  {
    hide FormatStatement, AfterStatements, IsArrayOfTables;
    var nextPath := path + [f.key];
    NothingAfter(buf);
    if f.value.InlineTable? {
      AfterFirst(buf, Header(nextPath), PrintMap(f.value.entries, nextPath));
      var out :- WriteHeader(buf, nextPath, false);
      r := EncodeAnyMapDocument(out, f.value.entries, nextPath);
    } else if f.value.Array? && IsArrayOfTables(f.value) {
      assert forall i :: 0 <= i < |f.value.items| ==> IsMap(f.value.items[i]) by {
        ItemsAreMaps(f.value);
      }
      r := EncodeElements(buf, f.value.items, nextPath);
    } else {
      r := Ok(buf);
    }
  }

  lemma ItemsAreMaps(v: Literal)
    requires IsArrayOfTables(v)
    ensures forall i :: 0 <= i < |v.items| ==> IsMap(v.items[i])
  {
  }

  method EncodeElements(buf: string, items: seq<Literal>, path: KeyPath) returns (r: Result<string, WriteFault>)
    requires forall i :: 0 <= i < |items| ==> IsMap(items[i])
    ensures r == AfterStatements(buf, PrintElements(items, path))
    decreases items, 0
  {
    hide FormatStatement, AfterStatements;
    var out := buf;
    for i := 0 to |items|
      invariant AfterStatements(buf, PrintElements(items, path)) == AfterStatements(out, PrintElements(items[i..], path))
    {
      assert items[i..][1..] == items[i + 1..];
      assert IsMap(items[i]);
      var element, rest := PrintMap(items[i].entries, path), PrintElements(items[i + 1..], path);
      assert PrintElements(items[i..], path) == [ArrayHeader(path)] + (element + rest);
      AfterFirst(out, ArrayHeader(path), element + rest);
      out :- WriteHeader(out, path, true);
      AfterBoth(out, element, rest);
      out :- EncodeAnyMapDocument(out, items[i].entries, path);
    }
    NothingAfter(out);
    return Ok(out);
  }
}
