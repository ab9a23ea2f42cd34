/**
 * The three passes on small inputs: one declaration in public.xml, the
 * string definitions of strings.xml, and one smali line that refers to the
 * declared id.
 */
module Scenarios {
  import opened Wrappers
  import opened Hex
  import opened PyStr
  import opened ResourceTable
  import opened Annotate

  /** The state a run starts from: an empty table, no strings, no error. */
  const Empty := TableState(map[], false, false)

  /** A single declaration in an empty table gives one entry, and sets the flag for a string. */
  lemma DeclareOne(decl: Element, id: int)
    requires IsDeclaration(decl) && ParseHex(decl.attrs["id"]) == Some(id)
    ensures ParsePublicFrom(Empty, [decl])
      == TableState(map[id := DeclaredEntry(decl)], decl.attrs["type"] == "string", false)
  {
    assert [decl][1..] == [];
    assert ParsePublicFrom(Empty, [decl]) == ParsePublicFrom(PublicStep(Empty, decl), []);
  }

  /**
   * A declared string resource with one definition in strings.xml: a const
   * line on its id gets the public-value comment and the literal line, or
   * is dropped when the definition has no text.
   */
  lemma StringResource(decl: Element, str: Element, line: string, id: int)
    requires IsDeclaration(decl) && decl.attrs["type"] == "string" && ParseHex(decl.attrs["id"]) == Some(id)
    requires IsStringDefinition(str) && str.attrs["name"] == decl.attrs["name"]
    requires Resolve(line) == Resolved(id, false)
    ensures var parsed := ParsePublicFrom(Empty, [decl]);
      var table := ParseStringsFrom(parsed.table, [str]);
      parsed.hasStrings && !parsed.raised
      && AnnotateLine(table, line) == match str.text
        case None => Drop
        case Some(literal) =>
          Emit(line + PublicComment(DeclaredEntry(decl)) + LiteralLine(|line|, decl.attrs["name"], literal), true)
  {
    DeclareOne(decl, id);
    var parsed := ParsePublicFrom(Empty, [decl]);
    assert [str][1..] == [];
    assert ParseStringsFrom(parsed.table, [str]) == ParseStringsFrom(StringStep(parsed.table, str), []);
    var table := ParseStringsFrom(parsed.table, [str]);
    assert table[id] == DeclaredEntry(decl).(extras := [str.text]);
  }

  /**
   * Two definitions of the same name give the entry two texts, so the
   * const line gets the public-value comment only: no literal line, no drop.
   */
  lemma DuplicateDefinition(decl: Element, str: Element, line: string, id: int)
    requires IsDeclaration(decl) && decl.attrs["type"] == "string" && ParseHex(decl.attrs["id"]) == Some(id)
    requires IsStringDefinition(str) && str.attrs["name"] == decl.attrs["name"]
    requires Resolve(line) == Resolved(id, false)
    ensures var table := ParseStringsFrom(ParsePublicFrom(Empty, [decl]).table, [str, str]);
      AnnotateLine(table, line) == Emit(line + PublicComment(DeclaredEntry(decl)), true)
  {
    DeclareOne(decl, id);
    var t0 := ParsePublicFrom(Empty, [decl]).table;
    var name := str.attrs["name"];
    var t1 := StringStep(t0, str);
    EnrichAllFrame(t0, name, str.text);
    assert t1[id] == DeclaredEntry(decl).(extras := [str.text]);
    var t2 := StringStep(t1, str);
    EnrichAllFrame(t1, name, str.text);
    assert t2[id] == DeclaredEntry(decl).(extras := [str.text, str.text]);
    assert [str, str][1..] == [str] && [str][1..] == [];
    assert ParseStringsFrom(t1, [str]) == ParseStringsFrom(t2, []);
    assert ParseStringsFrom(t0, [str, str]) == t2;
  }

  /** A packed-switch directive on a declared id gets the public-value comment only. */
  lemma PackedSwitchResource(decl: Element, line: string, id: int)
    requires IsDeclaration(decl) && ParseHex(decl.attrs["id"]) == Some(id)
    requires Resolve(line) == Resolved(id, true)
    ensures AnnotateLine(ParsePublicFrom(Empty, [decl]).table, line)
      == Emit(line + PublicComment(DeclaredEntry(decl)), true)
  {
    DeclareOne(decl, id);
  }

  // ------------------------------------------------------------ concrete lines

  // Each line below is indented by `n` spaces, as the disassembler indents
  // every instruction and directive of a method body.

  /** `const v0, ` is a const prefix without `h`. */
  lemma ConstMnemonic()
    ensures ConstPrefix("const v0, ", 0) && 'h' !in "const v0, "
  {
    var p := "const v0, ";
    assert p[0..5] == "const" && p[|p| - 2..] == ", " && p[..|p| - 2] == "const v0";
    assert ',' !in "const v0";
  }

  /** `const-string v0, ` is a const prefix without `h` or a newline. */
  lemma ConstStringMnemonic()
    ensures ConstPrefix("const-string v0, ", 0) && 'h' !in "const-string v0, " && '\n' !in "const-string v0, "
  {
    var p := "const-string v0, ";
    assert p[0..5] == "const" && p[|p| - 2..] == ", " && p[..|p| - 2] == "const-string v0";
    assert ',' !in "const-string v0";
  }

  /** `const/high16 v0, ` is a const prefix that mentions `high16` at index 6. */
  lemma High16Mnemonic()
    ensures ConstPrefix("const/high16 v0, ", 0) && OccursAt("const/high16 v0, ", "high16", 6)
  {
    var p := "const/high16 v0, ";
    assert p[0..5] == "const" && p[|p| - 2..] == ", " && p[..|p| - 2] == "const/high16 v0";
    assert ',' !in "const/high16 v0";
    assert p[6..12] == "high16";
  }

  lemma Spelled(n: nat, h: string)
    ensures Spaces(n) + "const v0, " + "0x" + h == Spaces(n) + "const v0, 0x" + h
    ensures Spaces(n) + "const-string v0, " + "0x" + h == Spaces(n) + "const-string v0, 0x" + h
    ensures Spaces(n) + "const/high16 v0, " + "0x" + h == Spaces(n) + "const/high16 v0, 0x" + h
  {
    assert "const v0, " + "0x" == "const v0, 0x";
    assert "const-string v0, " + "0x" == "const-string v0, 0x";
    assert "const/high16 v0, " + "0x" == "const/high16 v0, 0x";
  }

  /** `const v0, 0x…` on 4 to 8 hex digits resolves to their value. */
  lemma ConstLineResolves(n: nat, h: string)
    requires AllHex(h) && 4 <= |h| <= 8
    ensures Resolve(Spaces(n) + "const v0, 0x" + h) == Resolved(HexValue(h), false)
  {
    ConstMnemonic();
    IndentedConstPrefix(n, "const v0, ", 0);
    Spelled(n, h);
    ConstFormResolves(Spaces(n) + "const v0, ", n, h);
  }

  /** `const-string v0, 0x…` on 4 to 8 hex digits resolves to their value. */
  lemma ConstStringLineResolves(n: nat, h: string)
    requires AllHex(h) && 4 <= |h| <= 8
    ensures Resolve(Spaces(n) + "const-string v0, 0x" + h) == Resolved(HexValue(h), false)
  {
    ConstStringMnemonic();
    IndentedConstPrefix(n, "const-string v0, ", 0);
    Spelled(n, h);
    ConstFormResolves(Spaces(n) + "const-string v0, ", n, h);
  }

  /** `const/high16 v0, 0x…` resolves to the digits' value times 0x10000. */
  lemma High16LineResolves(n: nat, h: string)
    requires AllHex(h) && 4 <= |h| <= 8
    ensures Resolve(Spaces(n) + "const/high16 v0, 0x" + h) == Resolved(HexValue(h) * 0x10000, false)
  {
    High16Mnemonic();
    IndentedConstPrefix(n, "const/high16 v0, ", 0);
    IndentedOccurrence(n, "const/high16 v0, ", "high16", 6);
    Spelled(n, h);
    High16FormResolves(Spaces(n) + "const/high16 v0, ", n, h, n + 6);
  }

  /** Indenting by `n` spaces moves an occurrence by `n`. */
  lemma IndentedOccurrence(n: nat, p: string, sub: string, j: int)
    requires OccursAt(p, sub, j)
    ensures OccursAt(Spaces(n) + p, sub, n + j)
  {
    assert (Spaces(n) + p)[n + j..n + j + |sub|] == p[j..j + |sub|];
  }

  /** A string declared with id `0x` + `h` and defined once gives a one-entry table holding that text. */
  lemma DeclaredStringTable(h: string, name: string, text: Option<string>)
    requires AllHex(h) && h != []
    ensures var decl := Element("public", map["id" := "0x" + h, "name" := name, "type" := "string"], None);
      var parsed := ParsePublicFrom(Empty, [decl]);
      parsed.hasStrings && !parsed.raised
      && ParseStringsFrom(parsed.table, [Element("string", map["name" := name], text)])
         == map[HexValue(h) := Entry(name, "string", [text])]
  {
    var decl := Element("public", map["id" := "0x" + h, "name" := name, "type" := "string"], None);
    var str := Element("string", map["name" := name], text);
    assert decl.attrs["id"] == "0x" + h && decl.attrs["name"] == name && decl.attrs["type"] == "string";
    assert str.attrs["name"] == name;
    ParseHexPrefixed(h);
    DeclareOne(decl, HexValue(h));
    var t0 := ParsePublicFrom(Empty, [decl]).table;
    assert t0 == map[HexValue(h) := Entry(name, "string", [])];
    assert [str][1..] == [];
    assert ParseStringsFrom(t0, [str]) == StringStep(t0, str);
    var t1 := EnrichAll(t0, name, text);
    EnrichAllFrame(t0, name, text);
    assert t1.Keys == {HexValue(h)} && t1[HexValue(h)] == Entry(name, "string", [text]);
    assert t1 == map[HexValue(h) := Entry(name, "string", [text])];
  }

  /**
   * An end-to-end example: public.xml declares a string `name` with id
   * `0x` + `h`, strings.xml defines it once, and `const-string v0, 0x` + `h`
   * gets the public-value comment and, on a line of its own, the shortened
   * literal; a definition without text drops the line.
   */
  lemma ConstStringScenario(n: nat, h: string, name: string, text: Option<string>)
    requires AllHex(h) && 4 <= |h| <= 8
    ensures var decl := Element("public", map["id" := "0x" + h, "name" := name, "type" := "string"], None);
      var str := Element("string", map["name" := name], text);
      var parsed := ParsePublicFrom(Empty, [decl]);
      var table := ParseStringsFrom(parsed.table, [str]);
      var line := Spaces(n) + "const-string v0, 0x" + h;
      var out := AnnotateLine(table, line);
      parsed.hasStrings && !parsed.raised
      && (text.None? ==> out == Drop)
      && (text.Some? ==> out == Emit(line + PublicComment(Entry(name, "string", [])) + LiteralLine(|line|, name, text.value), true))
      && (text.Some? && '\n' !in name && '\n' !in text.value ==>
            Split(out.text) == [line + PublicComment(Entry(name, "string", [])), LiteralRow(|line|, name, text.value)])
  {
    DeclaredStringTable(h, name, text);
    StringLineOutcome(n, h, name, text);
    if text.Some? && '\n' !in name && '\n' !in text.value {
      StringLineRows(n, h, name, text.value);
    }
  }

  /** On the one-entry table of a string, `const-string v0, 0x` + `h` is dropped or gets the comment and the literal. */
  lemma StringLineOutcome(n: nat, h: string, name: string, text: Option<string>)
    requires AllHex(h) && 4 <= |h| <= 8
    ensures var line := Spaces(n) + "const-string v0, 0x" + h;
      var out := AnnotateLine(map[HexValue(h) := Entry(name, "string", [text])], line);
      (text.None? ==> out == Drop)
      && (text.Some? ==> out == Emit(line + PublicComment(Entry(name, "string", [])) + LiteralLine(|line|, name, text.value), true))
  {
    ConstStringLineResolves(n, h);
  }

  /** The annotated `const-string v0, 0x` + `h` line and its literal are two lines. */
  lemma StringLineRows(n: nat, h: string, name: string, literal: string)
    requires AllHex(h) && '\n' !in name && '\n' !in literal
    ensures var line := Spaces(n) + "const-string v0, 0x" + h;
      Split(line + PublicComment(Entry(name, "string", [])) + LiteralLine(|line|, name, literal))
        == [line + PublicComment(Entry(name, "string", [])), LiteralRow(|line|, name, literal)]
  {
    NotInHex(h, '\n');
    ConstStringMnemonic();
    IndentedConstPrefix(n, "const-string v0, ", 0);
    assert '\n' !in "0x";
    Spelled(n, h);
    AnnotatedRows(Spaces(n) + "const-string v0, 0x" + h, Entry(name, "string", []), literal);
  }

  /** A packed-switch example: `.packed-switch 0x` + `h` on a declared id gets the public-value comment. */
  lemma PackedSwitchScenario(n: nat, h: string, name: string, kind: string)
    requires AllHex(h) && 4 <= |h| <= 8
    ensures var decl := Element("public", map["id" := "0x" + h, "name" := name, "type" := kind], None);
      var line := Spaces(n) + ".packed-switch 0x" + h;
      AnnotateLine(ParsePublicFrom(Empty, [decl]).table, line)
        == Emit(line + PublicComment(Entry(name, kind, [])), true)
  {
    var decl := Element("public", map["id" := "0x" + h, "name" := name, "type" := kind], None);
    assert decl.attrs["id"] == "0x" + h && decl.attrs["name"] == name && decl.attrs["type"] == kind;
    ParseHexPrefixed(h);
    PackedSwitchResolves(n, h);
    PackedSwitchResource(decl, Spaces(n) + ".packed-switch 0x" + h, HexValue(h));
  }

  /**
   * A `high16` example: a declaration of the full-width id `0x` + `h` +
   * `0000` is found from the short operand of `const/high16 v0, 0x` + `h`.
   */
  lemma High16Scenario(n: nat, h: string, name: string, kind: string)
    requires AllHex(h) && 4 <= |h| <= 8
    ensures var decl := Element("public", map["id" := "0x" + h + "0000", "name" := name, "type" := kind], None);
      var line := Spaces(n) + "const/high16 v0, 0x" + h;
      AnnotateLine(ParsePublicFrom(Empty, [decl]).table, line)
        == Emit(line + PublicComment(Entry(name, kind, [])), true)
  {
    var decl := Element("public", map["id" := "0x" + h + "0000", "name" := name, "type" := kind], None);
    assert decl.attrs["id"] == "0x" + h + "0000" && decl.attrs["name"] == name && decl.attrs["type"] == kind;
    var op := "0x" + h;
    assert op[|op| - 1] == h[|h| - 1];
    ParseHexPrefixed(h);
    ParseHexAppendZeros(op);
    var id := HexValue(h) * 0x10000;
    DeclareOne(decl, id);
    High16LineResolves(n, h);
  }

  /** A 34-character literal is shown as its first 25 characters and an ellipsis. */
  lemma ShortenedLiteral()
    ensures Shorten("Hello World, this is a long string") == "Hello World, this is a lo..."
  {
  }
}
