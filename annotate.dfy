/**
 * The line annotator's specification: how one line of a smali file is
 * classified, how its resource id is read, and what text replaces it; and
 * how a whole file's lines combine into the rewritten text and the
 * "file modified" flag.
 */
module Annotate {
  import opened Wrappers
  import opened Hex
  import opened PyStr
  import opened Patterns
  import opened ResourceTable

  /** Number of characters of a string literal shown in a comment. */
  const DISPLAY_LEN: nat := 25

  /** A literal as a comment shows it: its first DISPLAY_LEN characters, and an ellipsis when some were cut. */
  function Shorten(s: string): (r: string)
    ensures |s| <= DISPLAY_LEN ==> r == s
    ensures |s| > DISPLAY_LEN ==> r == s[..DISPLAY_LEN] + "..." && |r| == DISPLAY_LEN + 3
  {
    s[..if |s| < DISPLAY_LEN then |s| else DISPLAY_LEN] + (if |s| > DISPLAY_LEN then "..." else "")
  }

  /** The comment appended to a line whose id resolves to `e`. */
  function PublicComment(e: Entry): string {
    "\t#Public value '" + e.name + "' (type=" + e.kind + ")"
  }

  /** The second comment line showing a string literal, indented by the original line's width. */
  function LiteralRow(width: nat, name: string, literal: string): string {
    Spaces(width) + "\t#" + name + " = '" + Shorten(literal) + "'"
  }

  /** What a literal adds to an annotated line: a newline and the literal's comment line. */
  function LiteralLine(width: nat, name: string, literal: string): string {
    "\n" + LiteralRow(width, name, literal)
  }

  /** The operand of a const line: everything from two characters after the first comma. */
  function ConstOperand(line: string): string {
    SliceFrom(line, Find(line, ",") + 2)
  }

  /** The operand of a packed-switch line: everything from the first `0x`. */
  function PackedSwitchOperand(line: string): string {
    SliceFrom(line, Find(line, "0x"))
  }

  /** How a line's resource id reads: no pattern, an operand `int(_, 16)` rejects, or an id. */
  datatype Resolution = Unmatched | Unparsable | Resolved(id: int, packedSwitch: bool)

  function Resolve(line: string): Resolution {
    if ConstPattern(line) then
      var op := ConstOperand(line);
      var value := if Find(line, "high16") != -1 then ParseHex(op + "0000") else ParseHex(op);
      if value.None? then Unparsable else Resolved(value.value, false)
    else if PackedSwitchPattern(line) then
      var value := ParseHex(PackedSwitchOperand(line));
      if value.None? then Unparsable else Resolved(value.value, true)
    else Unmatched
  }

  /**
   * What one line contributes: a text for the buffer (and whether it sets
   * the "file modified" flag), nothing at all (`continue`), or a
   * `ValueError`.
   */
  datatype LineOutcome = Emit(text: string, hit: bool) | Drop | Raise

  function AnnotateLine(table: Table, line: string): LineOutcome {
    match Resolve(line)
    case Unmatched => Emit(line, false)
    case Unparsable => Raise
    case Resolved(id, packedSwitch) =>
      if id !in table then Emit(line, false)
      else
        var e := table[id];
        var annotated := line + PublicComment(e);
        if packedSwitch || |e.extras| != 1 then Emit(annotated, true)
        else match e.extras[0]
          case None => Drop
          case Some(literal) => Emit(annotated + LiteralLine(|line|, e.name, literal), true)
  }

  /** The whole file: the buffer built from its lines and the flag, or a `ValueError`. */
  datatype FileResult = Completed(data: string, modified: bool) | Raised

  /** The loop over a file's lines, given what each line contributes, in order. */
  function Assemble(outcomes: seq<LineOutcome>): FileResult
    decreases |outcomes|
  {
    if outcomes == [] then Completed([], false)
    else
      match outcomes[0]
      case Raise => Raised
      case Drop => Assemble(outcomes[1..])
      case Emit(text, hit) =>
        match Assemble(outcomes[1..])
        case Raised => Raised
        case Completed(data, modified) => Completed(text + "\n" + data, hit || modified)
  }

  function Outcomes(table: Table, lines: seq<string>): (r: seq<LineOutcome>)
    ensures |r| == |lines| && forall i | 0 <= i < |lines| :: r[i] == AnnotateLine(table, lines[i])
  {
    if lines == [] then [] else [AnnotateLine(table, lines[0])] + Outcomes(table, lines[1..])
  }

  function AnnotateFile(table: Table, content: string): FileResult {
    Assemble(Outcomes(table, Split(content)))
  }

  /** The text written back to the file: only a modified file is rewritten. */
  function WrittenText(r: FileResult): Option<string> {
    if r.Completed? && r.modified then Some(r.data) else None
  }

  // ------------------------------------------------------------ one line

  /** The const operand is never empty and ends with the line's last hex digit. */
  lemma ConstOperandEndsInDigit(line: string)
    requires ConstPattern(line)
    ensures var op := ConstOperand(line);
      op != [] && op[|op| - 1] == line[|line| - 1] && IsHexDigit(op[|op| - 1])
  {
    ConstPatternShape(line);
    var k :| 4 <= k <= 8 && HexTail(line, k);
    var c := Find(line, ",");
    if c != -1 {
      assert line[c] == ',' by { assert line[c..c + 1] == ","; }
      NoCommaInHexTail(line, k);
    }
  }

  /** The `0x` and the digits that end a matching line hold no comma. */
  lemma NoCommaInHexTail(line: string, k: nat)
    requires HexTail(line, k)
    ensures forall j | |line| - k - 2 <= j < |line| :: line[j] != ','
  {
    forall j | |line| - k - 2 <= j < |line|
      ensures line[j] != ','
    {
      if j < |line| - k {
        assert line[j] == line[|line| - k - 2..|line| - k][j - (|line| - k - 2)];
      } else {
        assert line[j] == line[|line| - k..][j - (|line| - k)];
      }
    }
  }

  /**
   * The `high16` reconstruction: on a const line mentioning `high16` the id
   * is the operand's value times 0x10000, and the line raises exactly when
   * the operand alone would not parse.
   */
  lemma High16Exact(line: string)
    requires ConstPattern(line) && Find(line, "high16") != -1
    ensures var v := ParseHex(ConstOperand(line));
      Resolve(line) == if v.Some? then Resolved(v.value * 0x10000, false) else Unparsable
  {
    ConstOperandEndsInDigit(line);
    ParseHexAppendZeros(ConstOperand(line));
  }

  /** A line is emitted unchanged exactly when it matches no pattern or its id is not in the table. */
  lemma UnchangedIff(table: Table, line: string)
    ensures AnnotateLine(table, line) == Emit(line, false) <==>
      Resolve(line).Unmatched? || (Resolve(line).Resolved? && Resolve(line).id !in table)
  {
    match Resolve(line)
    case Resolved(id, _) =>
      if id in table {
        var out := AnnotateLine(table, line);
        if out.Emit? {
          assert |out.text| > |line|;
        }
      }
    case _ =>
  }

  /**
   * A line is dropped from the buffer exactly when it is a const line whose
   * entry has one appended text and that text is `None`.
   */
  lemma DropIff(table: Table, line: string)
    ensures AnnotateLine(table, line) == Drop <==>
      var r := Resolve(line);
      r.Resolved? && !r.packedSwitch && r.id in table && table[r.id].extras == [None]
  {
  }

  /**
   * A hit keeps the original line as a prefix, adds the public-value
   * comment, and adds a second line exactly for a const line whose entry
   * has one appended text that is present; a packed switch, and a const
   * line whose entry does not hold exactly one text, get the comment and
   * nothing more.
   */
  lemma HitFormat(table: Table, line: string)
    requires Resolve(line).Resolved? && Resolve(line).id in table
    requires '\n' !in line
    ensures var r := Resolve(line);
      var e := table[r.id];
      var out := AnnotateLine(table, line);
      ('\n' !in e.name && '\n' !in e.kind ==>
        (out.Emit? && '\n' in out.text <==> !r.packedSwitch && |e.extras| == 1 && e.extras[0].Some?))
      && (out.Emit? ==> out.hit && out.text[..|line| + |PublicComment(e)|] == line + PublicComment(e))
      && (r.packedSwitch ==> out == Emit(line + PublicComment(e), true))
      && (!r.packedSwitch && |e.extras| != 1 ==> out == Emit(line + PublicComment(e), true))
  {
    var r := Resolve(line);
    var e := table[r.id];
    if '\n' !in e.name && '\n' !in e.kind {
      AnnotatedOneLine(line, e);
    }
    if !r.packedSwitch && |e.extras| == 1 && e.extras[0].Some? {
      LiteralLineStartsRow(line + PublicComment(e), |line|, e.name, e.extras[0].value);
    }
  }

  /** The annotated line holds no newline when the line, the name and the kind hold none. */
  lemma AnnotatedOneLine(line: string, e: Entry)
    requires '\n' !in line && '\n' !in e.name && '\n' !in e.kind
    ensures '\n' !in line + PublicComment(e)
  {
    assert '\n' !in "\t#Public value '" && '\n' !in "' (type=" && '\n' !in ")";
  }

  /** Appending a literal line keeps the text before it and adds a newline. */
  lemma LiteralLineStartsRow(annotated: string, width: nat, name: string, literal: string)
    ensures var text := annotated + LiteralLine(width, name, literal);
      text[..|annotated|] == annotated && '\n' in text
  {
    var text := annotated + LiteralLine(width, name, literal);
    assert text[|annotated|] == '\n';
  }

  /**
   * The literal comment is a line of its own, aligned under the first
   * annotation: for a const hit whose entry holds one present text, the
   * emitted text splits into the annotated line and the indented literal.
   */
  lemma LiteralLineAligned(table: Table, line: string, literal: string)
    requires '\n' !in line && '\n' !in literal
    requires Resolve(line).Resolved? && !Resolve(line).packedSwitch && Resolve(line).id in table
    requires var e := table[Resolve(line).id];
      e.extras == [Some(literal)] && '\n' !in e.name && '\n' !in e.kind
    ensures var e := table[Resolve(line).id];
      var out := AnnotateLine(table, line);
      out.Emit? && out.hit
      && Split(out.text) == [line + PublicComment(e), Spaces(|line|) + "\t#" + e.name + " = '" + Shorten(literal) + "'"]
  {
    var e := table[Resolve(line).id];
    AnnotatedRows(line, e, literal);
  }

  /** The comment text of a hit and of a literal hold no newline of their own. */
  lemma CommentsOnOneLine(line: string, e: Entry, literal: string)
    requires '\n' !in line && '\n' !in literal && '\n' !in e.name && '\n' !in e.kind
    ensures '\n' !in line + PublicComment(e)
    ensures '\n' !in Spaces(|line|) + "\t#" + e.name + " = '" + Shorten(literal) + "'"
  {
    AnnotatedOneLine(line, e);
    var sp := Spaces(|line|);
    assert forall i | 0 <= i < |sp| :: sp[i] != '\n';
    assert forall c | c in literal[..if |literal| < DISPLAY_LEN then |literal| else DISPLAY_LEN] :: c in literal;
    assert '\n' !in "\t#" && '\n' !in " = '" && '\n' !in "..." && '\n' !in "'";
  }

  lemma AnnotatedRows(line: string, e: Entry, literal: string)
    requires '\n' !in line && '\n' !in literal && '\n' !in e.name && '\n' !in e.kind
    ensures Split(line + PublicComment(e) + LiteralLine(|line|, e.name, literal))
      == [line + PublicComment(e), Spaces(|line|) + "\t#" + e.name + " = '" + Shorten(literal) + "'"]
  {
    var first := line + PublicComment(e);
    var second := LiteralRow(|line|, e.name, literal);
    CommentsOnOneLine(line, e, literal);
    SplitTwo(first, second);
  }

  // ------------------------------------------------------------ line forms

  /**
   * The text before a const line's `0x` operand: `const` and one of ` `,
   * `/`, `-` at index `i` (after the indentation), and a register list
   * ending in its only `, `.
   */
  predicate ConstPrefix(p: string, i: nat) {
    ConstKeywordAt(p, i) && p[|p| - 2..] == ", " && ',' !in p[..|p| - 2]
  }

  /** Indenting a const prefix by `n` spaces moves the keyword by `n` and adds no comma, `h` or newline. */
  lemma IndentedConstPrefix(n: nat, p: string, i: nat)
    requires ConstPrefix(p, i)
    ensures ConstPrefix(Spaces(n) + p, n + i)
    ensures 'h' !in p ==> 'h' !in Spaces(n) + p
    ensures '\n' !in p ==> '\n' !in Spaces(n) + p
  {
    var q := Spaces(n) + p;
    assert q[n + i..n + i + 5] == p[i..i + 5];
    assert q[n + i + 5] == p[i + 5];
    assert q[|q| - 2..] == p[|p| - 2..];
    assert q[..|q| - 2] == Spaces(n) + p[..|p| - 2];
  }

  /** The operand of `p + "0x" + h` is `"0x" + h`: the first comma is the one `p` ends with. */
  lemma ConstFormOperand(p: string, i: nat, h: string)
    requires ConstPrefix(p, i)
    ensures ConstOperand(p + "0x" + h) == "0x" + h
  {
    var line := p + "0x" + h;
    var c := |p| - 2;
    assert line[..c] == p[..c];
    assert line[c..c + 1] == [p[c]] == [p[|p| - 2..][0]] == ",";
    FindFirstAt(line, ",", c);
    assert line[|p|..] == "0x" + h;
  }

  /**
   * A const line `p + "0x" + h` with no `h` in `p` resolves to the value
   * of its 4 to 8 hex digits `h`.
   */
  lemma ConstFormResolves(p: string, i: nat, h: string)
    requires AllHex(h) && 4 <= |h| <= 8
    requires ConstPrefix(p, i) && 'h' !in p
    ensures Resolve(p + "0x" + h) == Resolved(HexValue(h), false)
  {
    var line := p + "0x" + h;
    ConstMatches(p, i, h);
    ConstFormOperand(p, i, h);
    NotInHex(h, 'h');
    assert 'h' !in "0x";
    assert 'h' !in line;
    FindAbsent(line, "high16");
    ParseHexPrefixed(h);
    assert ParseHex(ConstOperand(line)) == Some(HexValue(h));
  }

  lemma MentionsHigh16(p: string, rest: string, j: int)
    requires OccursAt(p, "high16", j)
    ensures Find(p + rest, "high16") != -1
  {
    OccursInPrefix(p, rest, "high16", j);
  }

  lemma High16FormShape(p: string, i: nat, h: string, j: int)
    requires AllHex(h) && 4 <= |h| <= 8
    requires ConstPrefix(p, i) && OccursAt(p, "high16", j)
    ensures var line := p + "0x" + h;
      ConstPattern(line) && Find(line, "high16") != -1 && ConstOperand(line) == "0x" + h
  {
    var line := p + "0x" + h;
    ConstMatches(p, i, h);
    ConstFormOperand(p, i, h);
    MentionsHigh16(p, "0x" + h, j);
    assert line == p + ("0x" + h);
  }

  lemma High16OperandResolves(line: string, h: string)
    requires AllHex(h) && 4 <= |h| <= 8
    requires ConstPattern(line) && Find(line, "high16") != -1 && ConstOperand(line) == "0x" + h
    ensures Resolve(line) == Resolved(HexValue(h) * 0x10000, false)
  {
    High16Exact(line);
    ParseHexPrefixed(h);
  }

  /** The same with `high16` in the mnemonic: the id is the digits' value times 0x10000. */
  lemma High16FormResolves(p: string, i: nat, h: string, j: int)
    requires AllHex(h) && 4 <= |h| <= 8
    requires ConstPrefix(p, i) && OccursAt(p, "high16", j)
    ensures Resolve(p + "0x" + h) == Resolved(HexValue(h) * 0x10000, false)
  {
    High16FormShape(p, i, h, j);
    High16OperandResolves(p + "0x" + h, h);
  }

  /** The operand of a packed-switch directive, indented by `n` spaces, is its `0x` literal. */
  lemma PackedSwitchOperandIs(n: nat, h: string)
    ensures PackedSwitchOperand(Spaces(n) + ".packed-switch 0x" + h) == "0x" + h
  {
    var q := Spaces(n) + ".packed-switch ";
    DirectiveHasNoZero(n);
    OperandAfterFirstZero(q, h);
    DirectiveSpelled(n, h);
  }

  /** The indented directive name holds no `0`. */
  lemma DirectiveHasNoZero(n: nat)
    ensures '0' !in Spaces(n) + ".packed-switch "
  {
    assert '0' !in ".packed-switch ";
    assert '0' !in Spaces(n);
  }

  lemma DirectiveSpelled(n: nat, h: string)
    ensures Spaces(n) + ".packed-switch " + "0x" + h == Spaces(n) + ".packed-switch 0x" + h
  {
    assert ".packed-switch " + "0x" == ".packed-switch 0x";
  }

  /** With no `0` before it, the first `0x` of `q + "0x" + h` is the one after `q`. */
  lemma OperandAfterFirstZero(q: string, h: string)
    requires '0' !in q
    ensures PackedSwitchOperand(q + "0x" + h) == "0x" + h
  {
    var line := q + "0x" + h;
    assert line[|q|..|q| + 2] == "0x";
    assert line[..|q|] == q;
    FindFirstAt(line, "0x", |q|);
    assert line[|q|..] == "0x" + h;
  }

  /**
   * A `.packed-switch` directive, indented by `n` spaces, on 4 to 8 hex
   * digits resolves to their value, as a packed switch.
   */
  lemma PackedSwitchResolves(n: nat, h: string)
    requires AllHex(h) && 4 <= |h| <= 8
    ensures Resolve(Spaces(n) + ".packed-switch 0x" + h) == Resolved(HexValue(h), true)
  {
    PackedSwitchIsNotConst(n, h);
    PackedSwitchMatches(n, h);
    PackedSwitchOperandIs(n, h);
    ParseHexPrefixed(h);
  }

  // ------------------------------------------------------------ whole file

  /** The file raises exactly when one of its lines does. */
  lemma {:induction false} RaisedIff(outcomes: seq<LineOutcome>)
    ensures Assemble(outcomes).Raised? <==> Raise in outcomes
    decreases |outcomes|
  {
    if outcomes != [] {
      RaisedIff(outcomes[1..]);
      assert outcomes == [outcomes[0]] + outcomes[1..];
    }
  }

  /** The "file modified" flag is set exactly when some line is a hit that is not dropped. */
  lemma {:induction false} ModifiedIff(outcomes: seq<LineOutcome>)
    requires Assemble(outcomes).Completed?
    ensures Assemble(outcomes).modified <==> exists i | 0 <= i < |outcomes| :: outcomes[i].Emit? && outcomes[i].hit
    decreases |outcomes|
  {
    if outcomes != [] {
      ModifiedIff(outcomes[1..]);
      assert forall i | 1 <= i < |outcomes| :: outcomes[i] == outcomes[1..][i - 1];
    }
  }

  /** The texts of the lines that are not dropped, in input order. */
  function EmittedTexts(outcomes: seq<LineOutcome>): seq<string> {
    if outcomes == [] then []
    else (if outcomes[0].Emit? then [outcomes[0].text] else []) + EmittedTexts(outcomes[1..])
  }

  /** Without a `ValueError`, the buffer is every emitted text followed by a newline, in input order. */
  lemma {:induction false} BufferIsEmittedTexts(outcomes: seq<LineOutcome>)
    requires Raise !in outcomes
    ensures Assemble(outcomes).Completed?
    ensures Assemble(outcomes).data == Terminated(EmittedTexts(outcomes))
    decreases |outcomes|
  {
    if outcomes != [] {
      assert outcomes == [outcomes[0]] + outcomes[1..];
      BufferIsEmittedTexts(outcomes[1..]);
      if outcomes[0].Emit? {
        var texts := EmittedTexts(outcomes);
        assert texts == [outcomes[0].text] + EmittedTexts(outcomes[1..]);
        assert texts[1..] == EmittedTexts(outcomes[1..]);
        assert Terminated(texts) == outcomes[0].text + "\n" + Terminated(EmittedTexts(outcomes[1..]));
      } else {
        assert EmittedTexts(outcomes) == EmittedTexts(outcomes[1..]);
      }
    }
  }

  /** When every line is emitted unchanged, the emitted texts are the lines themselves. */
  lemma {:induction false} EmittedUnchanged(table: Table, lines: seq<string>)
    requires forall i | 0 <= i < |lines| :: AnnotateLine(table, lines[i]) == Emit(lines[i], false)
    ensures Raise !in Outcomes(table, lines)
    ensures EmittedTexts(Outcomes(table, lines)) == lines
    ensures Assemble(Outcomes(table, lines)).Completed? && !Assemble(Outcomes(table, lines)).modified
    decreases |lines|
  {
    var os := Outcomes(table, lines);
    if lines != [] {
      assert forall i | 1 <= i < |lines| :: lines[i] == lines[1..][i - 1];
      EmittedUnchanged(table, lines[1..]);
      assert os[1..] == Outcomes(table, lines[1..]);
      assert EmittedTexts(os) == [lines[0]] + lines[1..];
      RaisedIff(os);
      ModifiedIff(os);
    }
  }

  /** A file where every line misses gives back its own text plus one newline, unmodified. */
  lemma UntouchedWhenNoHit(table: Table, content: string)
    requires forall l | l in Split(content) :: AnnotateLine(table, l) == Emit(l, false)
    ensures AnnotateFile(table, content) == Completed(content + "\n", false)
  {
    var lines := Split(content);
    EmittedUnchanged(table, lines);
    BufferIsEmittedTexts(Outcomes(table, lines));
    TerminatedIsJoin(lines);
  }

  // ------------------------------------------------------------ locality

  /** Two consecutive stretches of lines: a `ValueError` in either, or both buffers and either flag. */
  function Concat(a: FileResult, b: FileResult): FileResult {
    if a.Raised? || b.Raised? then Raised else Completed(a.data + b.data, a.modified || b.modified)
  }

  lemma {:induction false} AssembleConcat(xs: seq<LineOutcome>, ys: seq<LineOutcome>)
    ensures Assemble(xs + ys) == Concat(Assemble(xs), Assemble(ys))
    decreases |xs|
  {
    if xs == [] {
      assert xs + ys == ys;
      if Assemble(ys).Completed? {
        assert [] + Assemble(ys).data == Assemble(ys).data;
      }
    } else {
      AssembleConcat(xs[1..], ys);
      assert (xs + ys)[0] == xs[0] && (xs + ys)[1..] == xs[1..] + ys;
      match xs[0]
      case Emit(text, hit) =>
        var a, b := Assemble(xs[1..]), Assemble(ys);
        if a.Completed? && b.Completed? {
          assert text + "\n" + (a.data + b.data) == (text + "\n" + a.data) + b.data;
        }
      case _ =>
    }
  }

  lemma {:induction false} OutcomesConcat(table: Table, a: seq<string>, b: seq<string>)
    ensures Outcomes(table, a + b) == Outcomes(table, a) + Outcomes(table, b)
  {
    if a == [] {
      assert a + b == b;
    } else {
      var first := [AnnotateLine(table, a[0])];
      assert (a + b)[0] == a[0] && (a + b)[1..] == a[1..] + b;
      assert Outcomes(table, a + b) == first + Outcomes(table, a[1..] + b);
      OutcomesConcat(table, a[1..], b);
      assert first + (Outcomes(table, a[1..]) + Outcomes(table, b)) == (first + Outcomes(table, a[1..])) + Outcomes(table, b);
    }
  }

  /**
   * Each line is annotated on its own: the file `a + "\n" + b` raises when
   * `a` or `b` would, and otherwise its buffer is the two buffers in order
   * and its flag is either flag.
   */
  lemma AnnotateFileLocal(table: Table, a: string, b: string)
    ensures AnnotateFile(table, a + "\n" + b) == Concat(AnnotateFile(table, a), AnnotateFile(table, b))
  {
    SplitAppend(a, b);
    OutcomesConcat(table, Split(a), Split(b));
    AssembleConcat(Outcomes(table, Split(a)), Outcomes(table, Split(b)));
  }

  /**
   * A final newline ends an empty last line, which is kept: the buffer of
   * `a + "\n"` is the buffer of `a` and one more newline.
   */
  lemma FinalNewline(table: Table, a: string)
    ensures AnnotateFile(table, a + "\n") == Concat(AnnotateFile(table, a), Completed("\n", false))
  {
    assert a + "\n" == a + "\n" + "";
    AnnotateFileLocal(table, a, "");
    EmptyFile(table);
  }

  /** An empty text is one empty line, kept as a newline. */
  lemma EmptyFile(table: Table)
    ensures AnnotateFile(table, "") == Completed("\n", false)
  {
    assert Resolve("") == Unmatched by {
      assert !ConstPattern("") by {
        forall k | 4 <= k <= 8 ensures !HexTail("", k) {
        }
      }
      assert !PackedSwitchPattern("") by {
        forall k | 4 <= k <= 8 ensures !HexTail("", k) {
        }
      }
    }
    var os := Outcomes(table, Split(""));
    assert Split("") == [[]];
    assert os == [Emit("", false)];
    assert os[1..] == [];
    assert Assemble(os[1..]) == Completed([], false);
    assert "" + "\n" + [] == "\n";
  }
}
