/** What the printer writes is UTF-8, so the decoder takes it. */
module PrintedText {
  import opened Results
  import opened Bytes
  import opened Decimal
  import opened Paths
  import opened Utf8
  import opened StringParser
  import opened StringWriter
  import opened TokenMachine
  import opened Printer
  import opened PrintedValues
  import M = TableMachine

  lemma ValidConcat(a: string, b: string)
    requires Utf8.Valid(a) && Utf8.Valid(b)
    ensures Utf8.Valid(a + b)
  {
    ValidIffWellFormed(a);
    ValidIffWellFormed(b);
    var p :| Characters(p) && Concat(p) == a;
    var q :| Characters(q) && Concat(q) == b;
    ConcatAppend(p, q);
    assert Characters(p + q) && Concat(p + q) == a + b;
    ValidIffWellFormed(a + b);
  }

  lemma AsciiValid(s: string)
    requires forall i :: 0 <= i < |s| ==> s[i] as int < 0x80
    ensures Utf8.Valid(s)
  {
    AsciiSkipped(s, 0, |s|);
  }

  lemma CharacterValid(c: string)
    requires Utf8Char(c)
    ensures Utf8.Valid(c)
  {
    assert Concat([c]) == c + Concat([]) && c + "" == c && [c][1..] == [];
    assert Characters([c]);
    ValidIffWellFormed(c);
  }

  lemma EscapeAscii(r: nat)
    requires r < 0x100
    ensures Utf8.Valid(UnicodeEscape(r))
  {
    AsciiValid(UnicodeEscape(r));
  }

  lemma UnitValid(s: string)
    requires s != "" && EscapedUnit(s).Ok?
    ensures Utf8.Valid(EscapedUnit(s).value.text)
  {
    hide Utf8.Valid;
    var u, c := EscapedUnit(s).value, s[0];
    if Printable(c) {
      AsciiValid(u.text);
    } else if c as int < 0x80 {
      if ControlEscape(c) == UnicodeEscape(c as int) {
        EscapeAscii(c as int);
      } else {
        AsciiValid(u.text);
      }
    } else {
      var d := DecodeRune(s);
      assert s[0..d.size] == s[..d.size];
      CharacterIsEncoded(s[..d.size]);
      if d.rune <= 0x9f {
        EscapeAscii(d.rune);
      } else {
        CharacterValid(u.text);
      }
    }
  }

  lemma {:induction false} EscapedValid(s: string)
    requires Escaped(s).Ok?
    ensures Utf8.Valid(Escaped(s).value)
    decreases |s|
  {
    hide EscapedUnit, Utf8.Valid;
    if s == "" {
      AsciiValid("");
    } else {
      var u := EscapedUnit(s).value;
      UnitValid(s);
      EscapedValid(s[u.size..]);
      ValidConcat(u.text, Escaped(s[u.size..]).value);
    }
  }

  lemma QuoteValid(s: string)
    requires Quote(s).Ok?
    ensures Utf8.Valid(Quote(s).value)
  {
    hide Escaped, Utf8.Valid;
    EscapedValid(s);
    AsciiValid("\"");
    ValidConcat("\"", Escaped(s).value);
    ValidConcat("\"" + Escaped(s).value, "\"");
  }

  lemma KeyValid(key: string)
    requires FormatKey(key).Ok?
    ensures Utf8.Valid(FormatKey(key).value)
  {
    hide Quote, Utf8.Valid;
    if key == "" {
      AsciiValid("\"\"");
    } else if BareKey(key) {
      AsciiValid(key);
    } else {
      QuoteValid(key);
    }
  }

  lemma {:induction false} PathValid(path: seq<string>)
    requires FormatPath(path).Ok?
    ensures Utf8.Valid(FormatPath(path).value)
    decreases |path|
  {
    hide FormatKey, Utf8.Valid;
    if path == [] {
      AsciiValid("");
    } else {
      KeyValid(path[0]);
      if |path| > 1 {
        PathValid(path[1..]);
        AsciiValid(".");
        ValidConcat(FormatKey(path[0]).value, ".");
        ValidConcat(FormatKey(path[0]).value + ".", FormatPath(path[1..]).value);
      }
    }
  }

  lemma ThreeValid(a: string, b: string, c: string)
    requires Utf8.Valid(a) && Utf8.Valid(b) && Utf8.Valid(c)
    ensures Utf8.Valid(a + b + c)
  {
    hide Utf8.Valid;
    ValidConcat(a, b);
    ValidConcat(a + b, c);
  }

  lemma AtomValid(a: M.Atom, limits: Limits)
    requires ScalarFits(a, limits) && FormatAtom(a).Ok?
    ensures Utf8.Valid(FormatAtom(a).value)
  {
    hide Quote, Utf8.Valid;
    match a
    case Text(s) => QuoteValid(s);
    case Integer(n) =>
      var digits := OfNat(if n < 0 then -n else n);
      assert forall i :: 0 <= i < |digits| ==> IsDigit(digits[i]);
      AsciiValid(OfInt(n));
    case Boolean(b) => AsciiValid(if b then "true" else "false");
  }

  lemma {:induction false} LiteralValid(v: M.Literal, limits: Limits, depth: nat)
    requires LiteralFits(v, limits, depth) && FormatLiteral(v).Ok?
    ensures Utf8.Valid(FormatLiteral(v).value)
    decreases v, 1
  {
    hide FormatAtom, Utf8.Valid, ScalarFits, KeyFits;
    match v
    case Scalar(a) => AtomValid(a, limits);
    case Array(items) =>
      ItemsValid(items, limits, depth + 1, true);
      AsciiValid("[");
      AsciiValid("]");
      ThreeValid("[", FormatItems(items).value, "]");
    case InlineTable(entries) =>
      EntriesValid(entries, limits, depth, true);
      AsciiValid("{ ");
      AsciiValid(" }");
      ThreeValid("{ ", FormatEntries(entries).value, " }");
  }

  lemma {:induction false} ItemsValid(items: seq<M.Literal>, limits: Limits, depth: nat, first: bool)
    requires ItemsText(items, first).Ok? && forall i :: 0 <= i < |items| ==> LiteralFits(items[i], limits, depth)
    ensures Utf8.Valid(ItemsText(items, first).value)
    decreases items, 0
  {
    hide FormatLiteral, Utf8.Valid, LiteralFits;
    if items == [] {
      NoItems(first);
      AsciiValid("");
    } else {
      ItemTexts(items, first);
      LiteralValid(items[0], limits, depth);
      LaterItems(items[1..]);
      ItemsValid(items[1..], limits, depth, false);
      AsciiValid(if first then "" else ", ");
      ValidConcat(FormatLiteral(items[0]).value, FormatItemsAfter(items[1..]).value);
      ValidConcat(if first then "" else ", ", FormatLiteral(items[0]).value + FormatItemsAfter(items[1..]).value);
    }
  }

  lemma {:induction false} EntriesValid(entries: seq<M.Field>, limits: Limits, depth: nat, first: bool)
    requires (if first then FormatEntries(entries) else FormatEntriesAfter(entries)).Ok?
    requires forall i :: 0 <= i < |entries| ==>
               KeyFits(entries[i].key, limits) && LiteralFits(entries[i].value, limits, depth)
    ensures Utf8.Valid((if first then FormatEntries(entries) else FormatEntriesAfter(entries)).value)
    decreases entries, 0
  {
    hide FormatLiteral, FormatKey, Utf8.Valid, LiteralFits, KeyFits;
    if entries == [] {
      AsciiValid("");
    } else {
      var e := entries[0];
      EntryText(e);
      KeyValid(e.key);
      LiteralValid(e.value, limits, depth);
      EntriesValid(entries[1..], limits, depth, false);
      AsciiValid(" = ");
      ThreeValid(FormatKey(e.key).value, " = ", FormatLiteral(e.value).value);
      ValidConcat(FormatEntry(e).value, FormatEntriesAfter(entries[1..]).value);
      AsciiValid(", ");
      ValidConcat(", ", FormatEntry(e).value + FormatEntriesAfter(entries[1..]).value);
    }
  }
}
