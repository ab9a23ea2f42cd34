# fixresources in Dafny

A model of the `fixresources` module of an Android reverse-engineering
toolkit. The module takes an application that was decoded to smali, and
adds a comment to each smali line whose numeric resource identifier it can
resolve. It has three passes:

1. **public.xml** is read into a table from resource id to `[name, type]`.
   A `string` type sets the `has_strings` flag.
2. **strings.xml**, read only when that flag is set, appends the text of
   every `<string name=…>` element to each string entry of that name.
3. **The smali tree** is walked. Two kinds of line are annotated, each only
   when its id is in the table:
   - a `const…` line ending in a 4–8 digit hex literal (a `const/high16`
     operand is widened by four zero digits);
   - a `.packed-switch` line.

   The annotation is a `#Public value 'name' (type=…)` comment. A const line
   whose entry holds exactly one text also gets a second line showing the
   literal, cut to 25 characters (`DISPLAY_LEN`) plus `...`. A file is written back only
   when some line in it was annotated.

Modules:

- `Hex`: Python's `int(s, 16)`, as a partial function. `None` stands for a
  raised `ValueError`. A reference encoder `ToHex` is included, and the
  model proves that parsing its output gives the number back.
- `PyStr`: the Python string operations the module uses: `str.find`,
  clamped slicing `s[k:]`, `' ' * n` and `re.split("\n", s)`. A reference
  `Join` (the code itself never joins) is the inverse that pins `Split` down.
- `Patterns`: the two regular expressions, written as predicates on a line.
- `ResourceTable`: the element and entry data model, and the two XML
  passes as folds over a sequence of elements, with reference definitions:
  - `LastDeclaration`: the last declaration of an id wins;
  - `TextsNamed`: the texts of a name, in document order.
- `Annotate`: what one line contributes to the output buffer, and how a
  file's lines build the buffer and the "modified" flag.
- `Run`: the walk over the smali files and the status of a whole run.
- `FixResources`: the tool object itself. It is a class with the fields
  `publicDict` and `hasStrings`. Its methods are written in the code's
  imperative style, and each one is proved equal to the functions above.
- `Scenarios`: the three passes put together, on one declaration, its
  string definitions and one smali line, both for any resolving line and
  for the concrete forms `const v0, 0x…`, `const-string v0, 0x…`,
  `const/high16 v0, 0x…` and `.packed-switch 0x…` on any 4 to 8 hex digits,
  indented by any number of spaces as disassembled method bodies are.

Some behaviour of the code is unexpected. The model follows the code here,
and each point is proved:

- A string definition whose element has no text makes the tool drop the
  whole smali line from the output (`continue` skips the buffer append).
  See `DropIff`.
- Running the strings pass twice appends every text twice. An entry with
  two texts is then annotated without its literal line. See
  `ParseStringsTwice` and `DuplicateDefinition`.
- The walk compares the whole path with `R.smali`, so a path such as
  `dir/R.smali` is annotated; and `$` in the suffix pattern lets a name
  ending in `.smali` and a newline through. See `SmaliSuffixes`.
- `do_changes` never returns 0: it falls off its end and returns `None`.
  So `do_fix` returns -4 even after a successful walk, and never reaches
  its final line. See `FixNeverSucceeds`.
- `re.split` on text that ends in a newline yields a trailing empty piece,
  and `data += line + "\n"` ends every kept piece with a newline. A
  rewritten file therefore gains one newline at its end. See `FinalNewline`
  (the buffer of `a + "\n"` is the buffer of `a` plus `"\n"`), together
  with `BufferIsEmittedTexts` and `TerminatedIsJoin`.
- Python evaluates `[attrib['name'], attrib['type']]` before
  `int(res_id, 16)`. A declaration missing `name` or `type` is therefore
  skipped as a `KeyError`, even when its id is not hexadecimal.
- A `ValueError` is caught nowhere, so it ends the whole run. The table,
  and the files already rewritten, stay as they were when it was raised.

## Model

| member | source | states |
|---|---|---|
| Hex.DigitValue | fixresources.py:72 | the value of one hex digit of `int(_, 16)` is below 16, and below 10 exactly for a decimal digit |
| Hex.HexChar | fixresources.py:72 | the reference encoder's digit is a hex digit that `int` reads back as the same value |
| Hex.ToHex | fixresources.py:72 | the reference numeral is non-empty, all hex digits, and has no leading zero for a positive number |
| Hex.HexValueOfToHex | fixresources.py:72 | reading the reference numeral of `n` gives `n` back |
| Hex.ParseHexOfToHex | fixresources.py:158-160 | `int(_, 16)` accepts the numeral bare, with `0x` and with `-0x`, and returns `n` and `-n` |
| Hex.ParseHex | fixresources.py:158-160 | `int(s, 16)`: an optional sign, an optional `0x`/`0X`, then one or more ASCII hex digits give `Some` of the signed value; anything else is `None`, the `ValueError` (characterised by `ParseHexOfToHex`, `ParseHexPrefixed`, `ParseHexAppendZeros`) |
| Hex.ParseHexPrefixed | fixresources.py:160 | `int("0x" + h, 16)` is the value of the hex digits `h`, for every non-empty `h` |
| Hex.DigitsAppendZeros | fixresources.py:157-158 | appending `"0000"` to an operand ending in a hex digit appends it to what remains once the sign and `0x` are removed |
| Hex.AllHexAppendZeros | fixresources.py:157-158 | appending `"0000"` neither makes nor breaks a string of hex digits |
| Hex.HexValueAppendZeros | fixresources.py:157-158 | appending `"0000"` to a digit string multiplies its value by 0x10000 |
| Hex.ParseHexAppendZeros | fixresources.py:157-158 | for an operand ending in a hex digit, `int(op + "0000", 16)` is `int(op, 16) * 0x10000`, and fails exactly when `int(op, 16)` fails |
| PyStr.FindFrom | fixresources.py:154 | the search from `k` gives -1 exactly when there is no occurrence at or after `k`, and otherwise the first such occurrence |
| PyStr.Find | fixresources.py:157 | `str.find` gives -1 exactly when `sub` does not occur, and otherwise the lowest index where it occurs |
| PyStr.SliceFrom | fixresources.py:154 | `s[k:]` is a suffix of `s`: `s[k..]` for an index in range, empty past the end |
| PyStr.Spaces | fixresources.py:182 | `' ' * n` is `n` spaces |
| PyStr.Split | fixresources.py:148 | `re.split("\n", s)` gives at least one piece, no piece holds a newline, and joining the pieces gives `s` |
| PyStr.FindFirstAt | fixresources.py:154 | `find` returns an occurrence when the first character of the pattern does not appear before it |
| PyStr.FindAbsent | fixresources.py:157 | `find` returns -1 when the first character of the pattern does not appear at all |
| PyStr.JoinAppend | fixresources.py:148 | joining two non-empty lists of lines is joining each, with a newline between |
| PyStr.SplitAppend | fixresources.py:148 | `re.split("\n", a + "\n" + b)` is the split of `a` followed by the split of `b` |
| PyStr.SplitTwo | fixresources.py:148 | two newline-free lines joined by a newline split back into exactly those two lines |
| PyStr.SplitCons | fixresources.py:148 | how a split changes when one character is put in front of the text |
| PyStr.JoinNonEmptyHead | fixresources.py:148 | the joined text of lines whose first line is non-empty begins with that line's first character |
| PyStr.SplitOfJoin | fixresources.py:148 | splitting the join of newline-free lines gives those lines back (split and join are inverses) |
| PyStr.TerminatedIsJoin | fixresources.py:202 | appending each line and a newline gives the joined lines plus one final newline |
| Patterns.ConstPatternShape | fixresources.py:33 | a line matching the const pattern has at least 12 characters, ends in a hex digit and ends in `0x` and 4–8 hex digits |
| Patterns.ConstPattern | fixresources.py:33 | `re.search(CONST_REGEX, line)`: `const` and one of space, `/`, `-` start at or before the position that leaves room for the trailing `0x` and 4–8 hex digits ending the line |
| Patterns.PackedSwitchPattern | fixresources.py:34 | `re.search(PACKED_SWITCH_REGEX, line)`: the line ends with `.packed-switch 0x` and 4–8 hex digits |
| Patterns.PackedSwitchIsNotConst | fixresources.py:151-187 | a `.packed-switch 0x` line on hex digits, indented by any number of spaces, never matches the const pattern, so it reaches the `elif` branch |
| Patterns.PackedSwitchMatches | fixresources.py:34 | `.packed-switch 0x` and 4 to 8 hex digits, indented by any number of spaces, match the packed-switch pattern |
| Patterns.ConstMatches | fixresources.py:33 | a text holding `const` and one of space, `/`, `-` at any index, then `0x` and 4 to 8 hex digits, matches the const pattern |
| ResourceTable.PublicStep | fixresources.py:66-78 | one element of public.xml: a non-`public` tag or a missing `id`/`name`/`type` is skipped; a non-hex id raises; otherwise the id maps to `[name, type]` and a `string` type sets the flag |
| ResourceTable.ParsePublicFrom | fixresources.py:65-82 | the loop over public.xml in document order, stopping at the first `ValueError` (characterised by the `ParsePublic…` lemmas below) |
| ResourceTable.ParsePublicConcat | fixresources.py:65-82 | parsing `a + b` is parsing `a` then `b` from the resulting state |
| ResourceTable.ParsePublicSkips | fixresources.py:66-78 | an element that is not a complete `public` declaration changes nothing |
| ResourceTable.ParsePublicRaisesIff | fixresources.py:72 | the pass raises `ValueError` exactly when some complete declaration has an id that is not hexadecimal |
| ResourceTable.ParsePublicKeepsFlag | fixresources.py:75-76 | the pass never clears `has_strings` |
| ResourceTable.ParsePublicFlagIff | fixresources.py:75-76 | after a pass that did not raise, `has_strings` holds exactly when it held before or some valid declaration has type `string` |
| ResourceTable.ParsePublicLastWins | fixresources.py:72-73 | an id is in the table exactly when it was before or some declaration names it, and its entry comes from the last such declaration |
| ResourceTable.ParsePublicFreshEntries | fixresources.py:72-73 | the public pass stores only `[name, type]` entries, with no appended texts |
| ResourceTable.EnrichAll | fixresources.py:104-108 | the loop over all keys for one `string` element: every string entry of that name gets the text appended |
| ResourceTable.StringStep | fixresources.py:100-111 | one element of strings.xml: a `string` element with a `name` enriches the table, any other element is skipped |
| ResourceTable.ParseStringsFrom | fixresources.py:98-114 | the loop over strings.xml in document order (characterised by `ParseStringsAppends`) |
| ResourceTable.EnrichAllFrame | fixresources.py:104-108 | one string element keeps the key set and every name and kind, and appends its text exactly to the string entries of its name |
| ResourceTable.StringStepKeys | fixresources.py:100-111 | one element of strings.xml keeps the key set |
| ResourceTable.StringStepAt | fixresources.py:100-111 | one element of strings.xml leaves an entry's name and kind, and adds its text to a string entry of its name |
| ResourceTable.ParseStringsKeys | fixresources.py:98-114 | the strings pass keeps the key set |
| ResourceTable.ParseStringsAt | fixresources.py:98-114 | the strings pass on one entry: name and kind stay, and a string entry gains the texts of its name in document order |
| ResourceTable.ParseStringsAppends | fixresources.py:98-114 | the strings pass keeps keys, names and kinds, and appends to each string entry the texts of its name in document order; other entries are unchanged |
| ResourceTable.ParseStringsTwice | fixresources.py:104-108 | a second strings pass appends the same texts again, so the table changes: the pass is not idempotent |
| Annotate.ConstOperand | fixresources.py:154 | the const operand: the line from two characters after its first comma |
| Annotate.PackedSwitchOperand | fixresources.py:189 | the packed-switch operand: the line from its first `0x` |
| Annotate.Resolve | fixresources.py:151-190 | the const pattern first, then the packed-switch pattern; the operand is parsed with `int(_, 16)`, with `"0000"` appended when the line mentions `high16`; a failed parse is `Unparsable` |
| Annotate.PublicComment | fixresources.py:168 | the `\t#Public value 'name' (type=kind)` comment |
| Annotate.LiteralRow | fixresources.py:182 | the literal's comment line: as many spaces as the original line is wide, `\t#name = '`, the shortened literal and `'` |
| Annotate.LiteralLine | fixresources.py:182 | a newline, then the literal's comment line |
| Annotate.AnnotateLine | fixresources.py:151-202 | what one line contributes: itself when unmatched or unknown, `Raise` on a bad operand, the line and comment on a hit, the literal line too for a const hit whose entry holds one text, and nothing when that text is missing |
| Annotate.NoCommaInHexTail | fixresources.py:33 | the `0x` and the digits that end a matching const line hold no comma, so its first comma comes before them |
| Annotate.Assemble | fixresources.py:148-202 | the loop over a file's line outcomes: each kept text and a newline are appended in order, a hit sets the flag, a `Raise` ends the file |
| Annotate.AnnotateFile | fixresources.py:148-202 | a file's text split on newlines and assembled line by line |
| Annotate.WrittenText | fixresources.py:203-210 | the write-back: a completed file is written with its buffer exactly when it was modified; otherwise nothing is written (used by `WritesAreModifiedFiles` and `ModifiedFilesAreWritten`) |
| Annotate.Shorten | fixresources.py:177-179 | a literal of at most 25 characters is shown whole; a longer one as its first 25 characters and `...` |
| Annotate.ConstOperandEndsInDigit | fixresources.py:154 | the const operand is non-empty and ends with the line's final hex digit |
| Annotate.High16Exact | fixresources.py:157-158 | a `high16` const line resolves to its operand's value times 0x10000, and fails exactly when the operand is not hex |
| Annotate.UnchangedIff | fixresources.py:151-193 | a line is emitted unchanged and unflagged exactly when it matches no pattern or its id is not in the table |
| Annotate.DropIff | fixresources.py:170-175 | a line is dropped exactly when it is a const line whose entry's only appended text is missing |
| Annotate.HitFormat | fixresources.py:167-197 | an annotated line starts with the original line and the public-value comment, sets the flag, and gains a second line exactly for a const line whose entry holds one present text; a packed switch, and a const line whose entry does not hold exactly one text, give exactly the line and the comment |
| Annotate.LiteralLineAligned | fixresources.py:167-182 | on a const hit whose entry holds one present text (all newline-free), the emitted text is exactly two lines: the annotated line, and the literal indented by the original line's width |
| Annotate.AnnotatedRows | fixresources.py:167-182 | the text of a line, its comment and its literal line splits into the annotated line and the literal's comment line |
| Annotate.CommentsOnOneLine | fixresources.py:168-182 | the public-value comment and the literal's comment line hold no newline of their own |
| Annotate.AnnotatedOneLine | fixresources.py:168 | the annotated line holds no newline when the line, the name and the kind hold none |
| Annotate.LiteralLineStartsRow | fixresources.py:182 | appending the literal line keeps the annotated line as the prefix and adds a newline |
| Annotate.ConstFormOperand | fixresources.py:154 | for a const prefix ending in its only `, `, the operand of prefix + `0x` + digits is `0x` + digits |
| Annotate.IndentedConstPrefix | fixresources.py:151-157 | indenting a const prefix by `n` spaces keeps it a const prefix, with its keyword `n` further on, and adds no `h`, comma or newline |
| Annotate.ConstFormResolves | fixresources.py:151-160 | a const line prefix + `0x` + 4 to 8 hex digits, without `h` in the prefix and with the keyword at any index, resolves to the digits' value |
| Annotate.High16FormShape | fixresources.py:151-157 | a const prefix mentioning `high16`, then `0x` and hex digits: the line matches, mentions `high16`, and has operand `0x` + digits |
| Annotate.High16OperandResolves | fixresources.py:157-158 | a matching `high16` line with operand `0x` + digits resolves to the digits' value times 0x10000 |
| Annotate.High16FormResolves | fixresources.py:151-158 | a const line whose prefix mentions `high16` resolves to the digits' value times 0x10000 |
| Annotate.MentionsHigh16 | fixresources.py:157 | `high16` in a prefix is found in the whole line |
| Annotate.PackedSwitchOperandIs | fixresources.py:189 | the operand of `.packed-switch 0x` + digits, indented by any number of spaces, is `0x` + digits |
| Annotate.OperandAfterFirstZero | fixresources.py:189 | when no `0` comes before it, the packed-switch operand is the `0x` literal that follows |
| Annotate.PackedSwitchResolves | fixresources.py:187-190 | `.packed-switch 0x` and 4 to 8 hex digits, indented by any number of spaces, resolve to their value, as a packed switch |
| Annotate.RaisedIff | fixresources.py:148-202 | a file raises `ValueError` exactly when one of its lines does |
| Annotate.ModifiedIff | fixresources.py:184-199 | a file is flagged as modified exactly when some line of it was annotated |
| Annotate.BufferIsEmittedTexts | fixresources.py:202 | without an error, the buffer is every emitted text, each followed by a newline, in input order |
| Annotate.EmittedUnchanged | fixresources.py:201-202 | when every line passes through unchanged, nothing raises, the emitted texts are the lines themselves and the file is not flagged |
| Annotate.AssembleConcat | fixresources.py:148-202 | the loop over two stretches of lines: a `ValueError` in either, or the two buffers in order with either flag |
| Annotate.OutcomesConcat | fixresources.py:148-202 | the outcomes of two stretches of lines are the outcomes of each |
| Annotate.AnnotateFileLocal | fixresources.py:148-202 | each line is annotated on its own: the file `a + "\n" + b` raises when `a` or `b` would, else its buffer is both buffers in order and its flag is either flag |
| Annotate.EmptyFile | fixresources.py:148-202 | an empty text is one empty line: the buffer is a single newline, not modified |
| Annotate.FinalNewline | fixresources.py:148-202 | the buffer of `a + "\n"` is the buffer of `a` and one more newline, with the same flag |
| Annotate.UntouchedWhenNoHit | fixresources.py:148-211 | a file with no annotated line is not rewritten, and its buffer is its text plus one newline |
| Run.IsSmaliCandidate | fixresources.py:136-137 | the walk's filter `re.search(".*\.smali$", path) and path != 'R.smali'`: a path ending in `.smali`, or in `.smali` and a newline (where Python's `$` also matches), that is not literally `R.smali` |
| Run.SmaliSuffixes | fixresources.py:136-137 | a path `p + ".smali"` is annotated exactly when `p` is not `R` (so `dir/R.smali` is annotated), and every `p + ".smali\n"` is annotated |
| Run.ChangesFrom | fixresources.py:130-139 | the walk over the found files in order: candidates are annotated, modified ones written back, and a `ValueError` stops the walk after the earlier writes |
| Run.DoChangesSpec | fixresources.py:118-139 | `do_changes`: -2 for a missing directory, otherwise `None` or the `ValueError`, with the writes of the walk |
| Run.FixSpec | fixresources.py:215-241 | `do_fix`: -1 for a missing directory; reset; -2 for a missing public.xml; the `ValueError` of the public pass; -3 when strings are declared but strings.xml is missing; otherwise the strings pass when needed, the walk, and -4 or the walk's `ValueError` |
| Run.WritesAreModifiedFiles | fixresources.py:130-139 | every file written back is a found `.smali` candidate, written with its annotated buffer |
| Run.ModifiedFilesAreWritten | fixresources.py:205-207 | when no file raises, every candidate with an annotated line is written back with its buffer |
| Run.FixNeverSucceeds | fixresources.py:238-239 | a run ends with -1, -2, -3, -4 or a `ValueError`, never with a success |
| Run.StringsFileUnusedWithoutStrings | fixresources.py:233-235 | without any string declaration, strings.xml has no effect on the run |
| FixResources.WalkSkip | fixresources.py:136-137 | a file the walk does not consider leaves the writes as they are |
| FixResources.WalkRaise | fixresources.py:138-139 | a file that raises ends the walk with the writes so far |
| FixResources.WalkKeep | fixresources.py:138-139 | an unmodified file leaves the writes as they are |
| FixResources.WalkWrite | fixresources.py:138-139 | a modified file adds one write of its new text, in walk order |
| FixResources.FixResources.constructor | fixresources.py:49-50 | the tool starts with an empty table and the flag clear |
| FixResources.FixResources.ParsePublic | fixresources.py:53-84 | -1 with the state unchanged for a missing file; otherwise the table and flag of the public pass, with 0 or the propagating `ValueError` |
| FixResources.FixResources.AppendToMatching | fixresources.py:103-108 | the loop over the keys appends the text to exactly the string entries of that name |
| FixResources.FixResources.ParseStrings | fixresources.py:86-116 | -1 with the table unchanged for a missing file; otherwise 0 and the table of the strings pass; the flag is unchanged |
| FixResources.FixResources.ChangeLine | fixresources.py:150-202 | the loop body gives exactly the line outcome specified by `AnnotateLine` |
| FixResources.FixResources.ChangeFile | fixresources.py:141-213 | the loop over a file's lines gives exactly its buffer and flag, or the `ValueError` |
| FixResources.FixResources.DoChanges | fixresources.py:118-139 | -2 for a missing directory; otherwise `None` or the `ValueError`, and the files written back, as specified |
| FixResources.FixResources.DoFix | fixresources.py:215-241 | the status, final table, flag and writes of a run are those of the run specification |
| Scenarios.DeclareOne | fixresources.py:65-76 | one valid declaration gives a one-entry table, with the flag set exactly for a string |
| Scenarios.StringResource | fixresources.py:163-182 | a declared string with one definition: a const line on its id gets the comment and the literal line, or is dropped when the text is missing |
| Scenarios.DuplicateDefinition | fixresources.py:170 | two definitions of the same name leave a const line with the public-value comment only |
| Scenarios.PackedSwitchResource | fixresources.py:187-199 | a packed-switch line on a declared id gets the public-value comment only |
| Scenarios.ConstLineResolves | fixresources.py:151-160 | `const v0, 0x` and 4 to 8 hex digits, indented by any number of spaces, resolve to the digits' value |
| Scenarios.ConstStringLineResolves | fixresources.py:151-160 | `const-string v0, 0x` and 4 to 8 hex digits, indented by any number of spaces, resolve to the digits' value |
| Scenarios.High16LineResolves | fixresources.py:151-158 | `const/high16 v0, 0x` and 4 to 8 hex digits, indented by any number of spaces, resolve to the digits' value times 0x10000 |
| Scenarios.IndentedOccurrence | fixresources.py:157 | indenting by `n` spaces moves an occurrence of `high16` by `n` |
| Scenarios.DeclaredStringTable | fixresources.py:65-114 | a string declared with id `0x` + digits and defined once gives the one-entry table holding that text, with the flag set and no error |
| Scenarios.StringLineOutcome | fixresources.py:163-182 | on that table, `const-string v0, 0x` + digits, indented by any number of spaces, is dropped without a text, and gets the comment and the literal with one |
| Scenarios.StringLineRows | fixresources.py:167-182 | the annotated, indented `const-string` line and its literal are exactly two lines, the literal aligned under the full width of the indented line |
| Scenarios.ConstStringScenario | fixresources.py:65-182 | a string declared with id `0x` + digits and defined once: `const-string v0, 0x` + digits, indented by any number of spaces, gets the comment and the literal, as two lines, or is dropped when the definition has no text |
| Scenarios.PackedSwitchScenario | fixresources.py:187-199 | a declared id `0x` + digits: `.packed-switch 0x` + digits, indented by any number of spaces, gets the public-value comment |
| Scenarios.High16Scenario | fixresources.py:157-168 | a declaration of the full-width id `0x` + digits + `0000` is found from `const/high16 v0, 0x` + digits, indented by any number of spaces |
| Scenarios.ShortenedLiteral | fixresources.py:177-179 | "Hello World, this is a long string" is shown as "Hello World, this is a lo..." |

## Left out

- File and directory access: the existence of the application directory,
  public.xml, strings.xml and the smali directory is an input (`bool` or
  `Option`). The XML documents are sequences of elements with a tag, an
  attribute map and an optional text. A smali file is a path and its text
  as `open().read()` returns it, that is after universal-newline
  translation: on raw text with `\r\n` line ends the model's lines would end
  in `\r` and fail the patterns, where Python annotates them.
  A write-back is recorded as a `Written` value.
- The lxml parser: each XML document is replaced by the sequence of
  elements `etree.iterparse` yields for a well-formed document, in document
  order. A document lxml cannot parse is not modelled. In Python its
  `XMLSyntaxError` is raised inside the loops of lines 65 and 98, outside
  the `try` that catches only `KeyError`, so it ends the run after the
  elements already seen have changed the table; the model has no such
  outcome.
- `element.clear()`: it only frees memory and changes no result.
- Logging, the `execute` entry point and the command-line wrapper. They
  only print or forward arguments.
- `os.walk` order: the walk is a given sequence of files. Which files it
  finds, and in which order, is the file system's business.
- Dictionary key order in the strings pass: the result does not depend on
  it, so the key loop takes keys in an arbitrary order.
- The class-level `public_dict = {}` is shared by every instance until
  `do_fix` gives an instance its own dict. The model keeps the table in an
  instance field, so aliasing between instances is not modelled.
- Hex.ParseHex: models `int(s, 16)` for a sign, an optional `0x`/`0X` and
  ASCII hex digits only. Surrounding whitespace, `_` digit separators and
  non-ASCII digits are not modelled: an id in public.xml, or a const
  operand (such as the one of `const v0,  0x7f040001`, with two spaces
  after the comma), written that way raises `ValueError` in the model where
  Python accepts it.
- PyStr.Split: models splitting on `\n` only. Python's `$` also matches
  before a final newline, but a piece of the split never contains one.
- A `ValueError` is a result value (`Raise`, `Raised`, `RaisedValueError`),
  not an exception unwinding the interpreter. The state at the point of the
  raise is kept, as Python keeps it.
