/**
 * The tool object: the resource table and the string-presence flag are
 * fields that its methods fill and consult, as the original class does.
 * Every method is proved to agree with the specification functions of
 * ResourceTable, Annotate and Run.
 */
module FixResources {
  import opened Wrappers
  import opened Hex
  import opened PyStr
  import opened Patterns
  import opened ResourceTable
  import opened Annotate
  import opened Run

  /** The rest of a file's loop, after `data` and `modified` were accumulated. */
  function AfterPrefix(data: string, modified: bool, rest: FileResult): FileResult {
    match rest
    case Raised => Raised
    case Completed(d, m) => Completed(data + d, modified || m)
  }

  /** One iteration of a file's loop, seen from the rest of the loop. */
  lemma AssembleStep(outcomes: seq<LineOutcome>, i: nat, data: string, modified: bool)
    requires i < |outcomes|
    ensures AfterPrefix(data, modified, Assemble(outcomes[i..])) ==
      match outcomes[i]
      case Raise => Raised
      case Drop => AfterPrefix(data, modified, Assemble(outcomes[i + 1..]))
      case Emit(text, hit) => AfterPrefix(data + text + "\n", modified || hit, Assemble(outcomes[i + 1..]))
  {
    assert outcomes[i..][1..] == outcomes[i + 1..];
    match outcomes[i]
    case Emit(text, hit) =>
      var rest := Assemble(outcomes[i + 1..]);
      if rest.Completed? {
        assert data + (text + "\n" + rest.data) == (data + text + "\n") + rest.data;
      }
    case _ =>
  }

  /** One iteration of the walk, seen from the rest of the walk. */
  lemma ChangesStep(table: Table, files: seq<SourceFile>, i: nat)
    requires i < |files|
    ensures ChangesFrom(table, files[i..]) ==
      if !IsSmaliCandidate(files[i].path) then ChangesFrom(table, files[i + 1..])
      else match AnnotateFile(table, files[i].content)
        case Raised => WalkResult(true, [])
        case Completed(data, modified) =>
          var rest := ChangesFrom(table, files[i + 1..]);
          WalkResult(rest.raised, (if modified then [Written(files[i].path, data)] else []) + rest.writes)
  {
    assert files[i..][0] == files[i];
    assert files[i..][1..] == files[i + 1..];
  }

  /** The walk so far: `writes` followed by what the walk over `files[i..]` writes is the whole walk. */
  predicate WalkSoFar(table: Table, files: seq<SourceFile>, i: nat, writes: seq<Written>)
    requires i <= |files|
  {
    var rest := ChangesFrom(table, files[i..]);
    ChangesFrom(table, files) == WalkResult(rest.raised, writes + rest.writes)
  }

  /** A file the walk does not consider keeps `WalkSoFar` with the same writes. */
  lemma WalkSkip(table: Table, files: seq<SourceFile>, i: nat, writes: seq<Written>)
    requires i < |files| && WalkSoFar(table, files, i, writes)
    requires !IsSmaliCandidate(files[i].path)
    ensures WalkSoFar(table, files, i + 1, writes)
  {
    ChangesStep(table, files, i);
  }

  /** A file that raises ends the walk with the writes so far. */
  lemma WalkRaise(table: Table, files: seq<SourceFile>, i: nat, writes: seq<Written>)
    requires i < |files| && WalkSoFar(table, files, i, writes)
    requires IsSmaliCandidate(files[i].path) && AnnotateFile(table, files[i].content).Raised?
    ensures ChangesFrom(table, files) == WalkResult(true, writes)
  {
    ChangesStep(table, files, i);
    assert writes + [] == writes;
  }

  /** An unmodified file keeps `WalkSoFar` with the same writes. */
  lemma WalkKeep(table: Table, files: seq<SourceFile>, i: nat, writes: seq<Written>)
    requires i < |files| && WalkSoFar(table, files, i, writes)
    requires IsSmaliCandidate(files[i].path)
    requires AnnotateFile(table, files[i].content).Completed? && !AnnotateFile(table, files[i].content).modified
    ensures WalkSoFar(table, files, i + 1, writes)
  {
    ChangesStep(table, files, i);
    var rest := ChangesFrom(table, files[i + 1..]);
    assert [] + rest.writes == rest.writes;
  }

  /** A modified file keeps `WalkSoFar` once its text is written back. */
  lemma WalkWrite(table: Table, files: seq<SourceFile>, i: nat, writes: seq<Written>)
    requires i < |files| && WalkSoFar(table, files, i, writes)
    requires IsSmaliCandidate(files[i].path)
    requires AnnotateFile(table, files[i].content).Completed? && AnnotateFile(table, files[i].content).modified
    ensures WalkSoFar(table, files, i + 1, writes + [Written(files[i].path, AnnotateFile(table, files[i].content).data)])
  {
    ChangesStep(table, files, i);
    var rest := ChangesFrom(table, files[i + 1..]);
    var w := [Written(files[i].path, AnnotateFile(table, files[i].content).data)];
    assert writes + (w + rest.writes) == (writes + w) + rest.writes;
  }

  lemma EmptyOrHasMember(s: set<int>)
    ensures s == {} || exists x :: x in s
  {
    if forall x :: x !in s {
      assert s == {};
    }
  }

  class FixResources {
    var publicDict: Table
    var hasStrings: bool

    constructor ()
      ensures publicDict == map[] && !hasStrings
    {
      publicDict := map[];
      hasStrings := false;
    }

    /** Parse public.xml (`None` when the file does not exist). */
    method ParsePublic(doc: Option<seq<Element>>) returns (status: Outcome)
      modifies this
      ensures doc.None? ==>
        status == Returned(-1) && publicDict == old(publicDict) && hasStrings == old(hasStrings)
      ensures doc.Some? ==>
        var s := ParsePublicFrom(TableState(old(publicDict), old(hasStrings), false), doc.value);
        publicDict == s.table && hasStrings == s.hasStrings
        && status == if s.raised then RaisedValueError else Returned(0)
    {
      if doc.None? {
        return Returned(-1);
      }
      var elems := doc.value;
      ghost var start := TableState(publicDict, hasStrings, false);
      var i := 0;
      while i < |elems|
        invariant 0 <= i <= |elems|
        invariant ParsePublicFrom(start, elems) == ParsePublicFrom(TableState(publicDict, hasStrings, false), elems[i..])
      {
        var element := elems[i];
        assert elems[i..] == [element] + elems[i + 1..];
        if element.tag == "public" && "id" in element.attrs && "name" in element.attrs && "type" in element.attrs {
          var resId := element.attrs["id"];
          var id := ParseHex(resId);
          if id.None? {
            return RaisedValueError;
          }
          publicDict := publicDict[id.value := Entry(element.attrs["name"], element.attrs["type"], [])];
          if element.attrs["type"] == "string" {
            hasStrings := true;
          }
        }
        i := i + 1;
      }
      status := Returned(0);
    }

    /** The loop over all keys for one `string` element: append `text` to each string entry called `name`. */
    method AppendToMatching(name: string, text: Option<string>)
      modifies this
      ensures hasStrings == old(hasStrings)
      ensures publicDict == EnrichAll(old(publicDict), name, text)
    {
      var pending := publicDict.Keys;
      while pending != {}
        invariant hasStrings == old(hasStrings)
        invariant pending <= old(publicDict).Keys && publicDict.Keys == old(publicDict).Keys
        invariant forall id | id in old(publicDict) ::
          publicDict[id] == if id in pending then old(publicDict)[id] else EnrichEntry(old(publicDict)[id], name, text)
        decreases pending
      {
        EmptyOrHasMember(pending);
        var pub :| pub in pending;
        if publicDict[pub].name == name && publicDict[pub].kind == "string" {
          publicDict := publicDict[pub := publicDict[pub].(extras := publicDict[pub].extras + [text])];
        }
        pending := pending - {pub};
      }
      ghost var expected := EnrichAll(old(publicDict), name, text);
      assert forall id :: id !in pending;
      assert publicDict.Keys == expected.Keys;
      assert forall id | id in publicDict :: publicDict[id] == expected[id];
    }

    /** Parse strings.xml (`None` when the file does not exist). */
    method ParseStrings(doc: Option<seq<Element>>) returns (status: Outcome)
      modifies this
      ensures hasStrings == old(hasStrings)
      ensures doc.None? ==> status == Returned(-1) && publicDict == old(publicDict)
      ensures doc.Some? ==> status == Returned(0) && publicDict == ParseStringsFrom(old(publicDict), doc.value)
    {
      if doc.None? {
        return Returned(-1);
      }
      var elems := doc.value;
      var i := 0;
      while i < |elems|
        invariant 0 <= i <= |elems|
        invariant hasStrings == old(hasStrings)
        invariant ParseStringsFrom(old(publicDict), elems) == ParseStringsFrom(publicDict, elems[i..])
      {
        var element := elems[i];
        assert elems[i..] == [element] + elems[i + 1..];
        if element.tag == "string" && "name" in element.attrs {
          AppendToMatching(element.attrs["name"], element.text);
        }
        i := i + 1;
      }
      status := Returned(0);
    }

    /** The body of the loop over a file's lines: what `line` contributes to the buffer. */
    method ChangeLine(line: string) returns (outcome: LineOutcome)
      ensures outcome == AnnotateLine(publicDict, line)
    {
      var text := line;
      if ConstPattern(line) {
        var resValue := ConstOperand(line);
        var resValueInt := if Find(line, "high16") != -1 then ParseHex(resValue + "0000") else ParseHex(resValue);
        if resValueInt.None? {
          return Raise;
        }
        if resValueInt.value in publicDict {
          var entry := publicDict[resValueInt.value];
          text := text + PublicComment(entry);
          if |entry.extras| == 1 {
            var stringValue := entry.extras[0];
            if stringValue.None? {
              return Drop;
            }
            text := text + LiteralLine(|line|, entry.name, stringValue.value);
          }
          return Emit(text, true);
        }
      } else if PackedSwitchPattern(line) {
        var resValueInt := ParseHex(PackedSwitchOperand(line));
        if resValueInt.None? {
          return Raise;
        }
        if resValueInt.value in publicDict {
          var entry := publicDict[resValueInt.value];
          text := text + PublicComment(entry);
          return Emit(text, true);
        }
      }
      outcome := Emit(text, false);
    }

    /** Annotate one smali file's text; the caller writes `data` back only when `modified` is set. */
    method ChangeFile(content: string) returns (r: FileResult)
      ensures r == AnnotateFile(publicDict, content)
    {
      var lines := Split(content);
      ghost var outcomes := Outcomes(publicDict, lines);
      var data: string := "";
      var fileModded := false;
      var i := 0;
      while i < |lines|
        invariant 0 <= i <= |lines|
        invariant Assemble(outcomes) == AfterPrefix(data, fileModded, Assemble(outcomes[i..]))
      {
        var outcome := ChangeLine(lines[i]);
        AssembleStep(outcomes, i, data, fileModded);
        match outcome {
          case Raise =>
            return Raised;
          case Drop =>
          case Emit(text, hit) =>
            data := data + text + "\n";
            fileModded := fileModded || hit;
        }
        i := i + 1;
      }
      assert outcomes[i..] == [];
      r := Completed(data, fileModded);
    }

    /** Walk the smali tree (`None` when the directory does not exist), annotating each candidate file. */
    method DoChanges(smali: Option<seq<SourceFile>>) returns (status: Outcome, writes: seq<Written>)
      ensures (status, writes) == DoChangesSpec(publicDict, smali)
    {
      writes := [];
      if smali.None? {
        return Returned(-2), writes;
      }
      var files := smali.value;
      var i := 0;
      assert files[0..] == files;
      while i < |files|
        invariant 0 <= i <= |files|
        invariant WalkSoFar(publicDict, files, i, writes)
      {
        var file := files[i];
        if IsSmaliCandidate(file.path) {
          var r := ChangeFile(file.content);
          if r.Raised? {
            WalkRaise(publicDict, files, i, writes);
            return RaisedValueError, writes;
          }
          if r.modified {
            WalkWrite(publicDict, files, i, writes);
            writes := writes + [Written(file.path, r.data)];
          } else {
            WalkKeep(publicDict, files, i, writes);
          }
        } else {
          WalkSkip(publicDict, files, i, writes);
        }
        i := i + 1;
      }
      assert files[i..] == [];
      assert writes + [] == writes;
      status := ReturnedNone;
    }

    /** The whole run: reset, parse public.xml, parse strings.xml if needed, then walk the smali tree. */
    method DoFix(appDirExists: bool, publicDoc: Option<seq<Element>>, stringsDoc: Option<seq<Element>>,
                 smali: Option<seq<SourceFile>>)
      returns (status: Outcome, writes: seq<Written>)
      modifies this
      ensures FixRun(status, publicDict, hasStrings, writes)
           == FixSpec(old(publicDict), old(hasStrings), appDirExists, publicDoc, stringsDoc, smali)
    {
      writes := [];
      if !appDirExists {
        return Returned(-1), writes;
      }
      hasStrings := false;
      publicDict := map[];
      var code := ParsePublic(publicDoc);
      if code == RaisedValueError {
        return RaisedValueError, writes;
      }
      if code != Returned(0) {
        return Returned(-2), writes;
      }
      if hasStrings {
        code := ParseStrings(stringsDoc);
        if code != Returned(0) {
          return Returned(-3), writes;
        }
      }
      var changes;
      changes, writes := DoChanges(smali);
      if changes == RaisedValueError {
        return RaisedValueError, writes;
      }
      if changes != Returned(0) {
        return Returned(-4), writes;
      }
      assert false;
    }
  }
}
