/**
 * The run as a whole: which files of the smali tree are annotated, which
 * of them are written back, and the status the run ends with. Directory
 * and file existence are inputs: `false`/`None` stands for a missing path.
 */
module Run {
  import opened Wrappers
  import opened ResourceTable
  import opened Annotate

  /** What a method of the tool ended with: a returned status, Python's `None`, or a propagating `ValueError`. */
  datatype Outcome = Returned(code: int) | ReturnedNone | RaisedValueError

  /** A file found by the walk of the smali directory, with its text. */
  datatype SourceFile = SourceFile(path: string, content: string)

  /** A file rewritten in place, with its new text. */
  datatype Written = Written(path: string, data: string)

  predicate EndsWith(s: string, suffix: string) {
    |suffix| <= |s| && s[|s| - |suffix|..] == suffix
  }

  /**
   * The filter of the walk: `re.search(".*\.smali$", path)` and a path that
   * is not literally `R.smali`. Python's `$` also matches just before a
   * final newline, so a path ending in `.smali` and a newline passes too.
   */
  predicate IsSmaliCandidate(path: string) {
    (EndsWith(path, ".smali") || EndsWith(path, ".smali\n")) && path != "R.smali"
  }

  /**
   * Every path ending in `.smali` is annotated except `R.smali` itself (a
   * path such as `dir/R.smali` is annotated), and so is every path ending
   * in `.smali` and a newline.
   */
  lemma SmaliSuffixes(p: string)
    ensures IsSmaliCandidate(p + ".smali") <==> p != "R"
    ensures IsSmaliCandidate(p + ".smali\n")
  {
    var a, b := p + ".smali", p + ".smali\n";
    assert a[|a| - 6..] == ".smali";
    assert b[|b| - 7..] == ".smali\n";
    assert |b| != |"R.smali"| || p == [];
    if p == [] {
      assert b != "R.smali" by { assert b[6] == '\n'; }
    }
    if a == "R.smali" {
      assert p == a[..|p|] == "R";
    }
  }

  datatype WalkResult = WalkResult(raised: bool, writes: seq<Written>)

  /** The walk over the found files, in order, stopping at the first `ValueError`. */
  function ChangesFrom(table: Table, files: seq<SourceFile>): WalkResult
    decreases |files|
  {
    if files == [] then WalkResult(false, [])
    else if !IsSmaliCandidate(files[0].path) then ChangesFrom(table, files[1..])
    else match AnnotateFile(table, files[0].content)
      case Raised => WalkResult(true, [])
      case Completed(data, modified) =>
        var rest := ChangesFrom(table, files[1..]);
        WalkResult(rest.raised, (if modified then [Written(files[0].path, data)] else []) + rest.writes)
  }

  /** `do_changes`: -2 for a missing directory, otherwise it falls off its end and returns `None`. */
  function DoChangesSpec(table: Table, smali: Option<seq<SourceFile>>): (Outcome, seq<Written>) {
    if smali.None? then (Returned(-2), [])
    else
      var w := ChangesFrom(table, smali.value);
      (if w.raised then RaisedValueError else ReturnedNone, w.writes)
  }

  /** The effect of a run: its status, the table and flag it leaves, and the files it rewrote. */
  datatype FixRun = FixRun(outcome: Outcome, table: Table, hasStrings: bool, writes: seq<Written>)

  function FixSpec(oldTable: Table, oldHasStrings: bool, appDirExists: bool,
                   publicDoc: Option<seq<Element>>, stringsDoc: Option<seq<Element>>,
                   smali: Option<seq<SourceFile>>): FixRun
  {
    if !appDirExists then FixRun(Returned(-1), oldTable, oldHasStrings, [])
    else if publicDoc.None? then FixRun(Returned(-2), map[], false, [])
    else
      var p := ParsePublicFrom(TableState(map[], false, false), publicDoc.value);
      if p.raised then FixRun(RaisedValueError, p.table, p.hasStrings, [])
      else if p.hasStrings && stringsDoc.None? then FixRun(Returned(-3), p.table, true, [])
      else
        var t := if p.hasStrings then ParseStringsFrom(p.table, stringsDoc.value) else p.table;
        var (changes, writes) := DoChangesSpec(t, smali);
        FixRun(if changes == RaisedValueError then RaisedValueError else Returned(-4), t, p.hasStrings, writes)
  }

  /** Every rewritten file is a candidate of the walk, and its new text is its annotated text. */
  lemma {:induction false} WritesAreModifiedFiles(table: Table, files: seq<SourceFile>)
    ensures forall w | w in ChangesFrom(table, files).writes ::
      exists i | 0 <= i < |files| ::
        files[i].path == w.path && IsSmaliCandidate(w.path)
        && WrittenText(AnnotateFile(table, files[i].content)) == Some(w.data)
    decreases |files|
  {
    if files != [] {
      WritesAreModifiedFiles(table, files[1..]);
      assert forall i | 1 <= i < |files| :: files[i] == files[1..][i - 1];
    }
  }

  /** Without a `ValueError`, every candidate file that its annotation modifies is rewritten with that text. */
  lemma {:induction false} ModifiedFilesAreWritten(table: Table, files: seq<SourceFile>)
    requires !ChangesFrom(table, files).raised
    ensures forall i | 0 <= i < |files| && IsSmaliCandidate(files[i].path)
                          && WrittenText(AnnotateFile(table, files[i].content)).Some? ::
      Written(files[i].path, WrittenText(AnnotateFile(table, files[i].content)).value)
        in ChangesFrom(table, files).writes
    decreases |files|
  {
    if files != [] {
      ModifiedFilesAreWritten(table, files[1..]);
      assert forall i | 1 <= i < |files| :: files[i] == files[1..][i - 1];
    }
  }

  /**
   * A run never reports success: once it reaches the walk it returns -4,
   * because `do_changes` returns -2 or `None` and neither equals 0.
   */
  lemma FixNeverSucceeds(oldTable: Table, oldHasStrings: bool, appDirExists: bool,
                         publicDoc: Option<seq<Element>>, stringsDoc: Option<seq<Element>>,
                         smali: Option<seq<SourceFile>>)
    ensures var r := FixSpec(oldTable, oldHasStrings, appDirExists, publicDoc, stringsDoc, smali);
      r.outcome.RaisedValueError? || r.outcome in {Returned(-1), Returned(-2), Returned(-3), Returned(-4)}
  {
  }

  /** When no element declares a string resource, strings.xml is never read: its presence and content do not matter. */
  lemma StringsFileUnusedWithoutStrings(oldTable: Table, oldHasStrings: bool,
                                        publicDoc: seq<Element>, s1: Option<seq<Element>>, s2: Option<seq<Element>>,
                                        smali: Option<seq<SourceFile>>)
    requires forall i | 0 <= i < |publicDoc| :: !DeclaresString(publicDoc[i])
    ensures FixSpec(oldTable, oldHasStrings, true, Some(publicDoc), s1, smali)
         == FixSpec(oldTable, oldHasStrings, true, Some(publicDoc), s2, smali)
  {
    var s := TableState(map[], false, false);
    if !ParsePublicFrom(s, publicDoc).raised {
      ParsePublicFlagIff(s, publicDoc);
    }
  }
}
