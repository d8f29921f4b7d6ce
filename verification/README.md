# A verified model of go-toml

This project models the TOML library `github.com/zchee/go-toml` in Dafny and proves what its hand-fused paths promise:
that the fast form of an operation agrees with the simple one, and that the printer and the parser undo each other.
`dafny verify dfyconfig.toml` checks all of it.

A Go string or byte slice is a Dafny string whose characters are byte values. Go `int` offsets are natural numbers; the
64-bit accumulator of the integer parser and the 64-bit words of the scan kernels are modelled with their width.

## How it is laid out

- Tables: `TableMachine` is the bookkeeping of `parseDocument` at the level of statements, with the tree of maps as a
  store of nodes. `TableSoundness` proves its invariant step by step, `TableTheorems` and `TableIdentity` state what
  holds of whole runs, `TableRefusals` says exactly what is refused, `TableLimits` shows where the records and the tree
  part ways. `DocumentParser` holds the loops in place.
- Tokens: `Lexer` has the leaf scanners, `LexerLoops` their loops, `TokenMachine` the state machine of `readToken`,
  `TokenRuns` and `ByteOrderMark` what holds of whole runs, `Decoder` the object with its sixteen-entry container array
  and spill. `Skipper` and `SimpleArrays` are the two bypasses and their refinement proofs.
- Reading: `DocumentReader` says what bytes parse to, `DocumentReading` is the parser on a `Decoder` and a `Builder`.
- Printing: `Printer` is the printer of map trees. `PrintedTables`, `PrintedKeys`, `PrintedValues`, `PrintedText` and
  `ReadBack` prove that parsing what it prints rebuilds the tree.
- Strings, numbers, dates: `StringParser`, `StringWriter`, `StringTokens`, `Integers`, `Decimal`, `DateTimes`.
- Byte kernels: `ScanKernels` and `Utf8`.
- The editor: `DocumentKeys`, `DocumentValues`, `DocumentEntries`, `DocumentLoading`, `DocumentText`, `DocumentEditor`.
  `DocumentInsertions` says where added lines land and how often, `DocumentOwnLines` what regular texts look like, and
  `DocumentSessions` puts it together from a text to its edited bytes.
- `FieldIndex`: struct field lookup. `ParserGaps`: input outside the grammar that is accepted, and exactly when.

## What the proofs found

- A byte order mark is stepped over with `advanceBytes`, which clears the line-start flag. A document that opens with a
  header and carries a mark is therefore read as opening an array, and is rejected. The documentation of `Decoder`
  promises only that the mark is skipped. `BomKeepsTokensIff` gives the exact condition.
- Paths are joined with NUL, and a quoted key may hold one, so two paths can share a record: `EncodeCollidesIff` says
  which. The laws about tables hold of every document whose recorded paths do not collide, and keys without NUL are
  enough for that. `SameTableIff` says of any accepted document when two headers open one table,
  `CollisionDefeatsDuplicateCheckIff` when a collision makes the check for duplicates miss that, and `NulBytesAccepted`
  is such a text.
- Some redefinition checks ignore the array element they were made under, and others look only at the innermost array.
  `HeaderRefusedIff`, `ArrayHeaderRefusedIff` and `KeyValueRefusedIff` say exactly what is refused after an accepted
  document; `StaleMarksRefuse` and `StaleHeadersRefuse` are valid documents that are.
- After a header, a token that starts no statement is skipped instead of being refused. `StrayTokensDecide` says of every
  input whether that happens, `StrayBracketIsAccepted` is a text for every key.
- The editor prints a new key as often as insertions of it are recorded (`AsOftenAsRecorded`, `SetPrintsAgainIff`,
  `SetTwice`), and continues a last line that has no line ending (`InsertAfterStartsLineIff`, `InsertBehindUnfinished`).
  Its edits go by path, so one edit reaches every entry of that path (`SetReaches`, `DeleteReaches`). Keys lose their
  empty leading segments (`PathKeyAgreesIff`).
- The printer's search for tables among the descendants of an array never finds any, so only non-empty lists of empty
  maps are printed as `[[...]]`.

## Model

| member | source | states |
|---|---|---|
| `TableTheorems.NoTableOpenedTwice` | value.go:52-253 | In an accepted document in which no two recorded paths collide, no table is opened by two `[p]` headers |
| `TableIdentity.SameTableIff` | value.go:52-253 | In any accepted document, collisions or not, two `[p]` headers open one table exactly when their paths are equal and no `[[q]]` for a prefix `q` of that path stands between them |
| `TableTheorems.NulFreeIsCollisionFree` | value.go:1404-1413 | Documents without NUL in their keys have no collisions |
| `TableTheorems.HeadersAvoidDottedTables` | value.go:77-126 | No `[p]` header opens a table that a dotted key created or went through, before it or after it |
| `TableTheorems.HeadersAvoidArrayElements` | value.go:77-80 | No `[p]` header opens a table that a `[[p]]` header appended |
| `TableTheorems.NeverEntersLiterals` | value.go:1351-1362 | Accepted or not, no document without collisions makes the parser walk into a table or array that was written as an inline table or array literal |
| `TableTheorems.BindingsSurvive` | value.go:1419-1497 | No accepted statement removes or overwrites a binding; an array of tables only grows at its end |
| `TableTheorems.ContextChangeMeansNewTable` | value.go:1338-1349 | When the declaration context of a path has changed between two points of a run, the path leads to a table made since, or to none |
| `TableTheorems.RunKeepsInv` | value.go:52-253 | After any prefix of an accepted document whose paths are among `u`, a set without collisions, the string-keyed records describe the tree: every opened, dotted or closed node is marked under the one path that leads to it |
| `TableSoundness.HeaderKeepsInv` | value.go:70-108 | A `[p]` header keeps that invariant, and the table it makes current was opened by no header, dotted key or array element before |
| `TableSoundness.ArrayHeaderKeepsInv` | value.go:109-160 | A `[[p]]` header keeps it, and what it cuts off from its path loses its marks with its context |
| `TableSoundness.KeyValueKeepsInv` | value.go:161-246 | An assignment keeps it, and marks every table its dotted key went through |
| `TableLimits.CollisionDefeatsDuplicateCheckIff` | value.go:77-99 | What a collision breaks: `[p]`, `[[q]]`, `[p]` is accepted exactly when `q` shares the record of a proper prefix of `p` without being it, and then both headers open one table |
| `TableLimits.SecondHeaderDuplicateIff` | value.go:88-90 | Of two headers alone the second is refused as a duplicate exactly when their paths collide, whatever the tree says |
| `ParserGaps.NulBytesAccepted` | value.go:52-253 | The bytes `[x.y.z]`, `[["x\u0000y"]]`, `[x.y.z]` are such a document: parsed and accepted, with one table opened twice |
| `Paths.EncodeCollidesIff` | value.go:1404-1413 | Two paths share a record exactly when cutting their segments at NUL gives the same pieces |
| `Paths.EncodeInjective` | value.go:1404-1413 | Paths without NUL never share a record |
| `TableRefusals.HeaderRefusedIff` | value.go:77-108 | After any accepted document without collisions, `[p]` is refused exactly when `[[p]]` stands before it, when `p` was headed or gone through by a dotted key, or `p` or a prefix closed, under the array element that is last now, or when a value stands in its way |
| `TableRefusals.FreeHeaderRefusedIff` | value.go:77-90 | A `[p]` whose path the tree leaves free is refused exactly for those earlier statements |
| `TableRefusals.ArrayHeaderRefusedIff` | value.go:109-160 | `[[p]]` is refused exactly when `[p]` stands before it, under whatever element; when `p` was gone through, or it or a prefix closed, under the element that is last now; or when the tree holds something else there |
| `TableRefusals.FreeArrayHeaderRefusedIff` | value.go:119-131 | A `[[p]]` whose path the tree leaves free is refused exactly for those earlier statements |
| `TableRefusals.KeyValueRefusedIff` | value.go:203-235 | An assignment is refused exactly when its dotted key goes through a table headed before, under whatever element, or closed under the element that is last now, or when the tree has no place for it |
| `TableRefusals.SameContextIff` | value.go:1338-1349 | A path keeps its declaration context exactly as long as its longest array prefix stays the same and gets no further element |
| `TableRefusals.WalkEndsIff` | value.go:1419-1440 | A walk that ends at no table has run off the tree, where a header can still open one, or into a value, where none can |
| `TableLimits.StaleMarksRefuse` | value.go:77-99 | `[[a]]`, `[[a.b]]`, `[a.b.c]`, `[[a]]`: in the second element `[a.b]` and `[a.b.c]` are refused, whatever the keys, though the tree holds nothing there |
| `TableLimits.StaleHeadersRefuse` | value.go:119-122 | `[[a]]`, `[a.b]`, `[[a]]`: in the second element `[[a.b]]` and `b.c = v` are refused, whatever the keys, though the tree has room for both |
| `DocumentParser.DeclarationContext` | value.go:1338-1349 | The loop finds the longest prefix that is an array of tables, with its epoch |
| `DocumentParser.ClosedInlinePrefix` | value.go:1351-1362 | The loop answers whether any prefix is closed in the current context |
| `DocumentParser.MarkDottedKeyTables` | value.go:1393-1402 | The loop marks exactly the proper prefixes of a dotted key, in their contexts |
| `DocumentParser.CheckDottedPrefixes` | value.go:203-221 | The check of a dotted key stops at its first declared or closed prefix |
| `DocumentParser.Builder.EnsureTable` | value.go:1419-1440 | The walk in place makes the tables the recursive walk makes, and ends in the same one |
| `DocumentParser.Builder.AppendArrayTable` | value.go:1442-1476 | A new last element, under the parent the path leads to |
| `DocumentParser.Builder.AssignUnique` | value.go:1478-1497 | The walk in place binds the value exactly where the recursive one does, or fails as it does |
| `DocumentParser.Builder.OpenTable` | value.go:70-108 | A `[p]` statement on the builder is the header step of the machine |
| `DocumentParser.Builder.OpenArrayTable` | value.go:109-160 | A `[[p]]` statement on the builder is the array-header step of the machine |
| `DocumentParser.Builder.AssignKey` | value.go:161-246 | An assignment on the builder is the assignment step of the machine |
| `DocumentParser.ParseStatements` | value.go:52-253 | The loop over statements ends in the state or the fault of the machine's run |
| `DocumentReader.ParseText` | value.go:52-253 | The tables of an accepted document are well-formed |
| `DocumentReading.ParseDocument` | value.go:52-253 | The parser on a decoder and a builder ends with the tables or the fault of `ParseText` |
| `DocumentReading.ParseNextValue` | value.go:567-578 | Comments are passed over, and the value is the one its tokens spell |
| `DocumentReading.ParseRawValueToken` | value.go:584-611 | A token becomes its value and leaves the decoder behind the value |
| `DocumentReading.ParseArrayValue` | value.go:650-671 | The loop collects the elements in order up to the closing bracket |
| `DocumentReading.ParseInlineTableValue` | value.go:673-709 | The loop assigns each key once, refuses to reopen closed values, and keeps the order of the entries |
| `DocumentReading.ReadAssignment` | value.go:161-246 | Key check, value and assignment happen in the order that decides which fault is reported |
| `DocumentReading.OpenHeader` | value.go:1083-1095 | The text between the brackets is the path the header opens |
| `ReadBack.PrintedDocumentReadsBack` | marshal.go:345-386 | For every tree of maps with distinct NUL-free keys, made of strings, `int64`, booleans, arrays and maps: when it prints within the decoder's limits, parsing the printed bytes is accepted and the tables hold exactly that tree |
| `PrintedTables.PrintedTreeIsRebuilt` | marshal.go:345-386 | The statements the printer makes of a tree run without a fault and rebuild it: every key, value and element, and nothing more |
| `PrintedTables.PrintMapRuns` | marshal.go:345-386 | In any open table, the statements of a map fill that table with the map and touch no other table and no other record |
| `PrintedTables.MarkClosedOnly` | value.go:1364-1391 | Closing a value records nothing but its own path and paths under it |
| `PrintedTables.EnsureNewChild` | value.go:1419-1440 | Opening an absent child of an open table adds one empty table there and changes nothing else |
| `ReadBack.StatementsRead` | value.go:52-253 | Printed statements are read back one by one, whatever statements follow |
| `ReadBack.PrintedRunReadsBack` | marshal.go:345-386 | Whatever statements are printed, when the table machine takes them the parser ends where their run ends |
| `PrintedValues.LiteralRead` | marshal.go:507-636 | A printed value of any nesting is read back as that value, and leaves the decoder as a value leaves it |
| `PrintedValues.ScalarScanned` | marshal.go:507-543 | A printed scalar is one token of its kind, as long as what was printed |
| `PrintedValues.AssignedNew` | value.go:1478-1497 | A key an inline table does not have yet is added behind the others |
| `PrintedKeys.KeyTokenReadsBack` | marshal.go:1329-1344 | A printed key in front of an equals sign is one key token, and the value starts right behind the sign |
| `PrintedKeys.PathReadsBack` | marshal.go:430-450 | A printed path parses back to the path, both as a header and as a dotted key |
| `PrintedKeys.HeaderReadsBack` | marshal.go:430-450 | A printed header is scanned up to its own closing bracket, and its text is accepted |
| `PrintedKeys.QuoteIsQuotedKey` | decoder.go:853-887 | A printed string is scanned whole as a quoted key, and closed by its own quote |
| `PrintedText.LiteralValid` | marshal.go:507-636 | Everything printed for a value is UTF-8 |
| `Printer.NothingIsTableDescendant` | marshal.go:1315-1327 | The search for a table among descendants never finds one |
| `Printer.ArrayOfTablesIff` | marshal.go:1279-1304 | An array is printed as an array of tables exactly when it is a non-empty list of empty maps |
| `Printer.WriteAnyValue` | marshal.go:507-636 | The writer appends the text of the value to the buffer, or fails on a string that is not UTF-8 |
| `Printer.WriteInlineAnyMap` | marshal.go:881-899 | Entries in order, separated by commas, in braces |
| `Printer.WriteHeader` | marshal.go:430-450 | A blank line and the dotted path in one or two pairs of brackets |
| `Printer.WriteKeyValueAny` | marshal.go:418-428 | Key, equals sign, value, line ending |
| `Printer.EncodeAnyMapDocument` | marshal.go:345-386 | The two loops append the text of the statements of the map |
| `TokenMachine.TurnKeepsInv` | decoder.go:331-433 | Every turn keeps the relations between the flags and the container stack, and goes round again only after moving forward |
| `TokenMachine.ReadToken` | decoder.go:331-433 | Reading ends, keeps the invariant and never moves back; a token is not empty and lies inside the input |
| `TokenRuns.OutcomeIsFinal` | decoder.go:316-377 | Once reading has failed or reached the end, every later call returns the same and changes nothing, recorded error or not |
| `TokenRuns.TokenizationIsLossless` | decoder.go:331-433 | In a run that reaches the end every byte belongs to a token or is white space, a comma or an equals sign |
| `TokenRuns.TilesMeans` | decoder.go:331-433 | The tokens are in bounds, not empty, in order and disjoint |
| `ByteOrderMark.BomKeepsTokensIff` | decoder.go:1109-1113 | A byte order mark leaves the run of tokens as it was, three bytes further on, exactly when the first line does not open with a bracket |
| `ByteOrderMark.HeaderBehindBomIsArray` | decoder.go:1084-1091 | Behind a mark the header a document opens with is read as the start of an array |
| `ByteOrderMark.RunShifts` | decoder.go:331-433 | A run does not depend on what precedes it: behind `k` more bytes it is the same run, moved by `k` |
| `Decoder.Decoder.constructor` | decoder.go:260-279 | A fresh decoder is in the opened state: limit and UTF-8 errors recorded, the mark stepped over |
| `Decoder.Decoder.SkipBom` | decoder.go:1109-1113 | Stepping over the mark also clears the line-start flag |
| `Decoder.Decoder.InnermostIsArray` | decoder.go:175-184 | Array and spilled storage answer for one stack |
| `Decoder.Decoder.PushContainer` | decoder.go:186-194 | The stack grows by one, spilled or not |
| `Decoder.Decoder.PopContainer` | decoder.go:199-216 | The innermost container is dropped exactly when it matches |
| `Decoder.Decoder.SkipSpaces` | decoder.go:437-499 | The loop ends in the state the white-space step reaches |
| `Decoder.Decoder.ScanCommentToken` | decoder.go:501-530 | The comment turn of the machine |
| `Decoder.Decoder.ScanKeyToken` | decoder.go:533-609 | The key turn of the machine, shortcut included |
| `Decoder.Decoder.ScanValueToken` | decoder.go:611-672 | The value turn of the machine |
| `Decoder.Decoder.ScanArrayStart` | decoder.go:674-685 | The opening turn for arrays; the depth error is recorded with the token |
| `Decoder.Decoder.ScanArrayEnd` | decoder.go:687-700 | The closing turn for arrays |
| `Decoder.Decoder.ScanInlineTableStart` | decoder.go:702-712 | The opening turn for inline tables |
| `Decoder.Decoder.ScanInlineTableEnd` | decoder.go:714-727 | The closing turn for inline tables |
| `Decoder.Decoder.ScanHeader` | decoder.go:729-777 | The header turn of the machine |
| `Decoder.Decoder.Dispatch` | decoder.go:385-432 | The dispatch on the first byte of a token |
| `Decoder.Decoder.LoopTurn` | decoder.go:339-432 | One turn of the loop of `readToken` |
| `Decoder.Decoder.ReadToken` | decoder.go:331-433 | The loop ends on every input, with the token, the fault or the end the machine reads |
| `Decoder.Decoder.SkipStructuralValueFast` | value.go:271-298 | The state behind a skipped array or inline table, or the fault |
| `Decoder.Decoder.FinishTopLevelArrayValue` | unmarshal_direct.go:579-608 | The rest of the line is consumed with the value when only blanks are left on it |
| `Decoder.Decoder.SkipSimpleStringArrayValue` | unmarshal_direct.go:216-290 | Skipped, declined with nothing changed, or rejected with the fault recorded |
| `Skipper.FastSkipRefinesTokens` | value.go:316-434 | Whenever the stack machine skips an array or inline table, reading the value token by token accepts it too and leaves the decoder in exactly the same state |
| `Skipper.ScanSkippedStructuralValue` | value.go:316-434 | The loop finds the end the recursive machine finds, or fails as it does |
| `Skipper.StepSimulated` | value.go:316-458 | One step of the stack machine is matched by turns of the tokenizer |
| `Skipper.KeyScansAgree` | value.go:507-541 | A key the skipper accepts is a key token with the same equals sign |
| `SimpleArrays.SimpleArrayRefinesSkipper` | unmarshal_direct.go:216-290 | What the string-array shortcut accepts the skipper accepts up to the same byte, and after white space the decoder states are equal |
| `SimpleArrays.RejectsAsTokensDo` | unmarshal_direct.go:210-290 | What the shortcut rejects, reading the value token by token rejects with the same fault |
| `LexerLoops.ScanQuoted` | decoder.go:853-887 | The loop finds the closing quote the recursive scan finds |
| `LexerLoops.ScanString` | decoder.go:890-996 | The loops find the end and the ready flag of the four string forms |
| `LexerLoops.ScanHeaderEnd` | decoder.go:779-810 | The loop finds the closing bracket outside quotes |
| `LexerLoops.ValidateKey` | decoder.go:812-851 | The loop accepts exactly dotted segments |
| `LexerLoops.ScanKey` | decoder.go:533-609 | Shortcut and general scan give the key token |
| `LexerLoops.ParseKey` | value.go:1115-1180 | The loop returns the segments, or the first fault |
| `StringParser.ScanBasicStringBody` | value.go:847-968 | Chunked scan and escapes give what reading unit by unit gives; without a builder it only checks |
| `StringParser.ParseBasicStringBody` | value.go:828-844 | Both shortcuts agree with the builder loop |
| `StringParser.ParseStringValue` | value.go:721-744 | The value of a string token in any of the four forms |
| `StringParser.ValidateStringValue` | value.go:759-776 | Validation accepts exactly the tokens that have a value, and fails with the same fault |
| `StringParser.ValidateStringControls` | value.go:970-975 | Accepts exactly the bodies without a forbidden control character |
| `StringParser.UnescapePlain` | value.go:833-838 | A body without backslashes stands for itself unless a control character forbids it |
| `StringTokens.ReadyFlagIsSound` | decoder.go:890-996 | Every string token has a value, and a ready one has its stripped body as value, in all four forms |
| `StringTokens.DirectStringValue` | unmarshal_direct.go:1590-1619 | Copied, aliased or parsed, the bound string is the value of the token |
| `StringTokens.QuoteScanned` | decoder.go:946-980 | The scanner takes a printed string for exactly what was printed, unless another quote follows it |
| `StringWriter.QuoteRoundTrips` | marshal.go:697-715 | A string prints exactly when it is UTF-8, and then parses back to itself |
| `StringWriter.EscapedReadsBack` | marshal.go:752-805 | The parser undoes the escapes the writer makes, C0, DEL and C1 included |
| `StringWriter.AppendBasicString` | marshal.go:752-805 | The chunk-copying loop writes what escaping unit by unit writes |
| `StringWriter.QuoteAscii` | marshal.go:807-822 | The ASCII route writes the same bytes |
| `StringWriter.WriteQuotedString` | marshal.go:697-715 | All three routes write the same bytes |
| `DocumentValues.FormatStringLikeRoundTrips` | document.go:670-677 | Whatever value is replaced, the literal and the basic form both parse back to the string; printing succeeds exactly on UTF-8 |
| `ScanKernels.ScanBasicString` | internal/scan/scan_swar.go:157-173 | The word-wise scan returns the first quote or backslash, as the scalar scan does |
| `ScanKernels.ScanBasicStringEscape` | internal/scan/scan_swar.go:175-186 | The word-wise scan returns the first byte that needs escaping |
| `ScanKernels.ScanBasicStringStrict` | internal/scan/scan_swar.go:193-206 | The prefilter with confirmation never misses a stop byte and never invents one |
| `ScanKernels.ScanCommentBody` | internal/scan/scan_swar.go:212-225 | The prefilter with confirmation returns the first control byte but tab |
| `ScanKernels.ScanBareValueEnd` | internal/scan/scan_swar.go:231-243 | The OR of nine class masks returns the first delimiter |
| `ScanKernels.ScanLiteralString` | internal/scan/scan_swar.go:256-272 | The word-wise scan returns the first single quote |
| `ScanKernels.LocateNewline` | internal/scan/scan_swar.go:294-310 | The word-wise scan returns the first newline |
| `ScanKernels.ScanScalar` | internal/scan/strict.go:17-76 | The scalar oracle returns the first byte of its class |
| `ScanKernels.ExactFindsFirst` | internal/scan/scan_swar.go:77-90 | The lowest set lane of an exact mask is the first byte of the class, and no lane is set when there is none |
| `ScanKernels.ExactByteEq` | internal/scan/scan_swar.go:84-86 | Borrow propagation raises false lanes only above a true one |
| `ScanKernels.ExactControl` | internal/scan/scan_swar.go:88-90 | The same for the bytes below a bound |
| `ScanKernels.ExactOr` | internal/scan/scan_swar.go:157-243 | The OR of exact masks is exact for the union of the classes |
| `Utf8.ValidateSwar` | internal/scan/scan_swar.go:322-351 | Skipping ASCII words, then decoding runes, finds the first ill-formed sequence |
| `Utf8.ValidateAsciiThenScalar` | internal/scan/scan_amd64.go:487-493 | An ASCII prefix, then the scalar validator, find the same place |
| `Utf8.ValidateScalar` | internal/scan/scan_amd64.go:515-525 | The scalar validator finds the first ill-formed sequence |
| `Utf8.FirstIllFormedMeans` | internal/scan/scan_amd64.go:527-572 | Everything before the answer is characters of section 4 of RFC 3629, and none starts at it |
| `Utf8.ValidIffWellFormed` | internal/scan/scan_amd64.go:515-574 | A text is accepted exactly when it is a sequence of characters of section 4 of RFC 3629 |
| `Integers.ParseUintLiteralDigits` | value.go:1284-1316 | Succeeds exactly on a numeral with a digit whose value is at most the limit, returns that value, and never leaves 64 bits |
| `Integers.CutoffExact` | value.go:1284-1316 | One more digit overflows exactly when the hoisted cutoff test says so |
| `Integers.ParseIntegerLiteral` | value.go:1243-1282 | The literal's exact value in the `int64` range, or a fault |
| `Integers.CandidateParsesExactly` | decoder.go:1223-1253 | A candidate literal parses to its mathematical value exactly when that is an `int64` |
| `Integers.IntegerRoundTrips` | marshal.go:538-541 | Every `int64` prints as a candidate that parses back to it, the least one included |
| `DateTimes.DispatchIsUnion` | datetime_parse.go:37-66 | The shape dispatch accepts exactly what one of the four form parsers accepts, with that parser's value |
| `DateTimes.LocalTextsReprint` | datetime.go:51-63 | An accepted local date-time, date or time is printed back byte for byte, the separator normalised to T |
| `DateTimes.NormalizedSeparatorReparses` | datetime_parse.go:191-217 | The normalised text parses to the same value |
| `DateTimes.PrintedReparses` | datetime.go:218-265 | What is printed for a valid time parses back to what was printed of it |
| `DateTimes.DateReparses` | datetime.go:209-216 | Every valid date is printed in ten bytes and parses back to itself |
| `DateTimes.DateTimeReparses` | datetime.go:51-63 | A date-time that can be written parses back to its date and to what was printed of its time, and to itself exactly when its time does |
| `DateTimes.TimeRoundTripsIff` | datetime.go:218-232 | A valid time survives printing and parsing exactly when its digits hold its fraction |
| `DateTimes.ParseFixedDigits` | datetime_parse.go:394-403 | The loop returns the value of an all-digit field |
| `DocumentEditor.Document.constructor` | document.go:106-159 | The last entry of a path is the one found by it, and nothing is edited |
| `DocumentEditor.Document.Get` | document.go:179-207 | Answers from the plain override map, and changes neither the map nor the output |
| `DocumentEditor.Document.Set` | document.go:211-241 | Success overrides one key of the map and records one edit; a failed call changes nothing |
| `DocumentEditor.Document.InsertAfter` | document.go:245-271 | Succeeds exactly behind an entry that is there; a path the document has keeps its value in the map |
| `DocumentEditor.Document.Delete` | document.go:274-296 | Success removes one key from the map; a failed call changes nothing |
| `DocumentEditor.Document.CollectOps` | document.go:306-344 | The operations of the entries and then of the insertions, numbered as found |
| `DocumentEditor.Document.Bytes` | document.go:299-367 | On entries with lines of their own the output is the raw text with exactly the edits made; untouched, it is the raw text |
| `DocumentEditor.ReplacedKeeps` | document.go:211-241 | Replaced and deleted keys stay disjoint and within the parsed paths, and what prints is what `Get` answers |
| `DocumentInsertions.OpsArePrinting` | document.go:320-344 | Every recorded insertion whose key is pending, whose line can be written and whose anchor is there is one operation at its point, and there are no others |
| `DocumentInsertions.AsOftenAsRecorded` | document.go:320-344 | A key is printed by as many operations as it has recorded insertions that are printed |
| `DocumentInsertions.PrintedOnceIff` | document.go:320-344 | A new key is printed once exactly when one of its recorded insertions is printed and no other |
| `DocumentInsertions.SetPrintsAgainIff` | document.go:235-239 | Setting a path the document does not have prints its line, and prints it more than once exactly when an insertion of that key was recorded before |
| `DocumentSessions.SetTwice` | document.go:235-239 | A key set twice in an empty document is printed twice |
| `DocumentInsertions.SetReaches` | document.go:306-319 | `Set` replaces the value of every entry of its path: of exactly one when the path occurs once, and only then |
| `DocumentInsertions.DeleteReaches` | document.go:306-319 | `Delete` removes every entry of its path: exactly one when the path occurs once, and only then |
| `DocumentText.SpliceRenders` | document.go:299-367 | Sorting and splicing drops no operation, renders line by line with insertions in order, and the length is that of the raw text plus the sum of the deltas |
| `DocumentText.SortOpsSorts` | document.go:345-353 | The sorted list is strictly ordered and has exactly the operations given |
| `DocumentText.SplicePoint` | document.go:354-365 | Insertions at one point come out in order |
| `DocumentInsertions.InsertAfterStartsLineIff` | document.go:337-343 | What is inserted behind an entry starts a line of the output exactly when something was inserted there before it or the line of the entry as printed ends in a newline, which for a line whose end is kept says that the byte before its end is one; otherwise it continues that line |
| `DocumentInsertions.AppendedStartsLine` | document.go:329-336 | When edited entries have their lines to themselves, what is added to the end starts a line, whatever has been edited |
| `DocumentOwnLines.RegularOwnsLines` | document.go:733-753 | In a regular text every entry has its line to itself from a newline on, and no value ends in a newline, which is what the two laws ask of edited entries |
| `DocumentSessions.AddedToRegularStartsLine` | document.go:329-336 | However a regular text has been edited, what is added to its end starts a line |
| `DocumentSessions.InsertBehindUnfinished` | document.go:245-271 | A text `key = n` without a line ending, and another assignment put behind it with `InsertAfter`: the output has both on one line |
| `DocumentText.LineSpan` | document.go:733-753 | The loops find the start and the end of the line |
| `DocumentText.SeparatedIsLaidOut` | document.go:733-753 | Entries a newline keeps apart get disjoint line spans, in order |
| `DocumentEntries.RegularIsLaidOut` | document.go:106-164 | When values close their own brackets and nothing stray stands between statements, the entries found in any text stand on lines of their own |
| `DocumentEntries.EntriesSeparated` | document.go:106-159 | A newline stands between a value and the next key |
| `DocumentLoading.ParseEntries` | document.go:106-164 | The loop over tokens keeps path key, spans, line and kind of every entry, or returns the first fault |
| `DocumentLoading.ReadValue` | document.go:377-425 | The span of a value, brackets counted by kind |
| `DocumentSessions.Load` | document.go:106-164 | A text is loaded into a document with its entries and no edits, or fails as reading it does |
| `DocumentSessions.ReplaceValue` | document.go:211-241 | From text to text: setting a path that occurs once in a regular text gives its bytes with exactly that value replaced; `Get` answers with the new value, and a string that was written reads back as it |
| `DocumentKeys.PathKeyMeans` | document.go:432-505 | Fails as `parseDottedKey` does; otherwise writes the path from its first segment that is not empty, and fails if there is none |
| `DocumentKeys.PathKeyAgreesIff` | document.go:432-505 | The key is the NUL-joined path exactly when the first segment is not empty |
| `DocumentKeys.JoinedIsWholePath` | document.go:541-559 | The key of an entry under a header is the key of the whole path |
| `DocumentKeys.PathInterner.ParseDottedPathKey` | document.go:432-505 | Interning changes no key |
| `DocumentKeys.PathInterner.JoinPathKeys` | document.go:541-559 | The cached join is the join |
| `ParserGaps.StrayRefusedIff` | value.go:247-251 | A token that starts no statement is refused exactly before the first header; behind one it is passed over |
| `ParserGaps.StrayTokensDecide` | value.go:52-253 | A document is refused for a stray token exactly when it comes to one before any header; of every other document the parser makes what is made of it with its stray tokens passed over |
| `ParserGaps.StrayBracketIsAccepted` | value.go:247-251 | For every key that can be written, `[key]` and a line with a lone closing bracket is accepted |
| `FieldIndex.TypeInfo.constructor` | internal/reflectcache/reflectcache.go:82-132 | Name and alias lead to the first field they stand for |
| `FieldIndex.TypeInfo.LookupIndex` | unmarshal_direct.go:1190-1222 | For an idempotent lower-casing, linear scan and map give the same field |
| `FieldIndex.TypeInfo.LookupByString` | unmarshal.go:424-448 | The string-keyed scan gives that field too |
| `FieldIndex.AliasFirst` | unmarshal_direct.go:1190-1213 | The first alias that matches is the first match of any kind |

## Left out

- Reflection-driven binding and encoding, `io` plumbing, pools, size hints, unsafe aliasing, options, error texts, lines and columns: their meaning is Go's runtime, or they carry none. Aliased strings are values.
- SIMD and assembly kernels: the 64-bit word and scalar Go code carries the same contracts. `scanBareKeySWAR`, `skipWhitespaceSWAR` and `countLines` would add only easy members.
- The decode filter: `parseDocument` is modelled with a nil filter.
- Floats: which finite float texts the standard library parses is a parameter (`readsFloat`), and floats and date-times are kept as their source text inside documents (`Unread`), so the printer law covers neither.
- Offset date-times are a local date-time and an offset in seconds; `time.Location` and its cache are not modelled.
- Key order: a Go map is listed in the order the printer visits it; the sort that finds the order is not modelled. A parsed inline table lists its entries in the order they were read.
- `TableMachine.EnsureTable`, `TableMachine.AppendArrayTable`, `TableMachine.AssignUnique`: a value written as an array or inline table is an immediate value, not nodes of the store; a walk that would enter one ends in the outcome `EntersLiteral`, which `NeverEntersLiterals` proves no document without collisions reaches.
- Leaf scanners are recursive functions on the rest of the input; `LexerLoops` proves the loops against them. Trimming of white space, `classifyBareValue` and `scanBareValueEnd` are functions only.
- `ReadBack.PrintedDocumentReadsBack`: invalid local dates, which the writer prints as nothing, and values bound through reflection are not among its trees.
- `DocumentEntries.RegularIsLaidOut`: says nothing of texts with stray tokens or mismatched closers, which the tokenizer accepts and whose entries may share a line.
- `DocumentEditor.Document.Get`: parsing a raw value is a parameter of the document.
- `DocumentEditor.Document.Bytes`: no claim is made that inserted keys reparse under the table they were meant for; they are appended as full dotted paths under whichever table is last.
- `sort.SliceStable` is modelled by insertion into a sorted list.
- `FieldIndex.TypeInfo.constructor`: tags, skipped fields and the encoder built beside the index are left out; the names are given.
- The cached scalar of a token, which lets a number be reused without parsing it again.
