/**
 * The resource table builder's specification: how the stream of elements of
 * `res/values/public.xml` fills the table from resource id to entry, and how
 * the elements of `res/values/strings.xml` append literal texts to the
 * string-typed entries.
 */
module ResourceTable {
  import opened Wrappers
  import opened Hex

  /** One parsed XML element: its tag, its attributes and its text (`None` for an empty element). */
  datatype Element = Element(tag: string, attrs: map<string, string>, text: Option<string>)

  /**
   * One table value, Python's list `[name, type, text...]`: `extras` are the
   * texts appended by the strings pass, so the list's length is `2 + |extras|`.
   */
  datatype Entry = Entry(name: string, kind: string, extras: seq<Option<string>>)

  type Table = map<int, Entry>

  /** The builder's state: the table, the string-presence flag, and whether `int(id, 16)` raised. */
  datatype TableState = TableState(table: Table, hasStrings: bool, raised: bool)

  // ---------------------------------------------------------------- public.xml

  /** A `public` element carrying all of `id`, `name` and `type` (otherwise a `KeyError` skips it). */
  predicate IsDeclaration(e: Element) {
    e.tag == "public" && "id" in e.attrs && "name" in e.attrs && "type" in e.attrs
  }

  /** A declaration of resource `id`. */
  predicate Declares(e: Element, id: int) {
    IsDeclaration(e) && ParseHex(e.attrs["id"]) == Some(id)
  }

  /** A declaration whose `id` is not hexadecimal: `int(id, 16)` raises. */
  predicate HasBadId(e: Element) {
    IsDeclaration(e) && ParseHex(e.attrs["id"]).None?
  }

  /** A well-formed declaration of a string resource. */
  predicate DeclaresString(e: Element) {
    IsDeclaration(e) && ParseHex(e.attrs["id"]).Some? && e.attrs["type"] == "string"
  }

  function DeclaredEntry(e: Element): Entry
    requires IsDeclaration(e)
  {
    Entry(e.attrs["name"], e.attrs["type"], [])
  }

  /** One iteration of the loop over public.xml. */
  function PublicStep(s: TableState, e: Element): TableState {
    if !IsDeclaration(e) then s
    else match ParseHex(e.attrs["id"])
      case None => s.(raised := true)
      case Some(id) =>
        s.(table := s.table[id := DeclaredEntry(e)],
           hasStrings := s.hasStrings || e.attrs["type"] == "string")
  }

  /** The whole loop: elements in document order, stopping at the first `ValueError`. */
  function ParsePublicFrom(s: TableState, elems: seq<Element>): TableState
    decreases |elems|
  {
    if s.raised || elems == [] then s
    else ParsePublicFrom(PublicStep(s, elems[0]), elems[1..])
  }

  /** Reference definition: the entry of the last declaration of `id` in `elems`, if any. */
  function LastDeclaration(elems: seq<Element>, id: int): Option<Entry> {
    if elems == [] then None
    else
      var later := LastDeclaration(elems[1..], id);
      if later.Some? then later
      else if Declares(elems[0], id) then Some(DeclaredEntry(elems[0]))
      else None
  }

  /** Running the loop over `a + b` is running it over `a`, then over `b`. */
  lemma {:induction false} ParsePublicConcat(s: TableState, a: seq<Element>, b: seq<Element>)
    ensures ParsePublicFrom(s, a + b) == ParsePublicFrom(ParsePublicFrom(s, a), b)
    decreases |a|
  {
    if a == [] {
      assert a + b == b;
    } else if !s.raised {
      assert (a + b)[1..] == a[1..] + b;
      ParsePublicConcat(PublicStep(s, a[0]), a[1..], b);
    }
  }

  /** An element that is not a complete `public` declaration changes nothing, wherever it stands. */
  lemma ParsePublicSkips(s: TableState, a: seq<Element>, e: Element, b: seq<Element>)
    requires !IsDeclaration(e)
    ensures ParsePublicFrom(s, a + [e] + b) == ParsePublicFrom(s, a + b)
  {
    ParsePublicConcat(s, a + [e], b);
    ParsePublicConcat(s, a, [e]);
    ParsePublicConcat(s, a, b);
  }

  /** The loop raises exactly when some declaration has a non-hexadecimal id. */
  lemma {:induction false} ParsePublicRaisesIff(s: TableState, elems: seq<Element>)
    requires !s.raised
    ensures ParsePublicFrom(s, elems).raised <==> exists i | 0 <= i < |elems| :: HasBadId(elems[i])
    decreases |elems|
  {
    if elems != [] {
      var s' := PublicStep(s, elems[0]);
      if !s'.raised {
        ParsePublicRaisesIff(s', elems[1..]);
        assert forall i | 1 <= i < |elems| :: elems[i] == elems[1..][i - 1];
        assert (exists i | 0 <= i < |elems| :: HasBadId(elems[i]))
          <==> (exists i | 0 <= i < |elems[1..]| :: HasBadId(elems[1..][i]));
      }
    }
  }

  /** Once set, the string-presence flag is never cleared. */
  lemma {:induction false} ParsePublicKeepsFlag(s: TableState, elems: seq<Element>)
    requires s.hasStrings
    ensures ParsePublicFrom(s, elems).hasStrings
    decreases |elems|
  {
    if elems != [] && !s.raised {
      ParsePublicKeepsFlag(PublicStep(s, elems[0]), elems[1..]);
    }
  }

  /** Without a `ValueError`, the flag is set exactly when it was set before or some element declares a string. */
  lemma {:induction false} ParsePublicFlagIff(s: TableState, elems: seq<Element>)
    requires !s.raised && !ParsePublicFrom(s, elems).raised
    ensures ParsePublicFrom(s, elems).hasStrings <==>
      s.hasStrings || exists i | 0 <= i < |elems| :: DeclaresString(elems[i])
    decreases |elems|
  {
    if elems != [] {
      var s' := PublicStep(s, elems[0]);
      ParsePublicFlagIff(s', elems[1..]);
      assert forall i | 1 <= i < |elems| :: elems[i] == elems[1..][i - 1];
      assert (exists i | 0 <= i < |elems| :: DeclaresString(elems[i]))
        <==> DeclaresString(elems[0]) || (exists i | 0 <= i < |elems[1..]| :: DeclaresString(elems[1..][i]));
    }
  }

  /**
   * Last write wins: without a `ValueError`, an id is in the table exactly
   * when it was there before or is declared, and its entry is that of its
   * last declaration, or its old entry when no element declares it.
   */
  lemma {:induction false} ParsePublicLastWins(s: TableState, elems: seq<Element>, id: int)
    requires !s.raised && !ParsePublicFrom(s, elems).raised
    ensures var t := ParsePublicFrom(s, elems).table;
      (id in t <==> id in s.table || LastDeclaration(elems, id).Some?)
      && (id in t ==> t[id] == if LastDeclaration(elems, id).Some? then LastDeclaration(elems, id).value else s.table[id])
    decreases |elems|
  {
    if elems != [] {
      ParsePublicLastWins(PublicStep(s, elems[0]), elems[1..], id);
    }
  }

  /** The loop only ever stores entries with no appended texts. */
  lemma {:induction false} ParsePublicFreshEntries(s: TableState, elems: seq<Element>)
    requires forall id | id in s.table :: s.table[id].extras == []
    ensures var t := ParsePublicFrom(s, elems).table;
      forall id | id in t :: t[id].extras == []
    decreases |elems|
  {
    if elems != [] && !s.raised {
      var s' := PublicStep(s, elems[0]);
      assert forall id | id in s'.table :: s'.table[id].extras == [];
      ParsePublicFreshEntries(s', elems[1..]);
      assert ParsePublicFrom(s, elems) == ParsePublicFrom(s', elems[1..]);
    }
  }

  // --------------------------------------------------------------- strings.xml

  /** The entry after one `string` element named `name` with text `text` was seen. */
  function EnrichEntry(e: Entry, name: string, text: Option<string>): Entry {
    if e.name == name && e.kind == "string" then e.(extras := e.extras + [text]) else e
  }

  /** The inner loop over all keys: append `text` to every string entry called `name`. */
  function EnrichAll(t: Table, name: string, text: Option<string>): Table {
    map id | id in t :: EnrichEntry(t[id], name, text)
  }

  /** A `string` element carrying a `name` (otherwise a `KeyError` skips it). */
  predicate IsStringDefinition(e: Element) {
    e.tag == "string" && "name" in e.attrs
  }

  /** One iteration of the loop over strings.xml. */
  function StringStep(t: Table, e: Element): Table {
    if IsStringDefinition(e) then EnrichAll(t, e.attrs["name"], e.text) else t
  }

  function ParseStringsFrom(t: Table, elems: seq<Element>): Table
    decreases |elems|
  {
    if elems == [] then t else ParseStringsFrom(StringStep(t, elems[0]), elems[1..])
  }

  /** The text of one element when it is a `string` element called `name`, as a list of at most one. */
  function TextIfNamed(e: Element, name: string): seq<Option<string>> {
    if IsStringDefinition(e) && e.attrs["name"] == name then [e.text] else []
  }

  /** Reference definition: the texts of the `string` elements called `name`, in document order. */
  function TextsNamed(elems: seq<Element>, name: string): seq<Option<string>> {
    if elems == [] then [] else TextIfNamed(elems[0], name) + TextsNamed(elems[1..], name)
  }

  /** One element of strings.xml: keys, names and kinds stay; matching string entries grow by one text. */
  lemma EnrichAllFrame(t: Table, name: string, text: Option<string>)
    ensures var r := EnrichAll(t, name, text);
      r.Keys == t.Keys
      && forall id | id in t ::
           r[id].name == t[id].name && r[id].kind == t[id].kind
           && r[id].extras == t[id].extras + (if t[id].name == name && t[id].kind == "string" then [text] else [])
  {
  }

  /** One iteration of the strings loop keeps the key set. */
  lemma StringStepKeys(t: Table, e: Element)
    ensures StringStep(t, e).Keys == t.Keys
  {
    if IsStringDefinition(e) {
      EnrichAllFrame(t, e.attrs["name"], e.text);
    }
  }

  /** One iteration of the strings loop on one entry: a string entry gains the element's text when the names agree. */
  lemma StringStepAt(t: Table, e: Element, id: int)
    requires id in t
    ensures var r := StringStep(t, e);
      id in r && r[id].name == t[id].name && r[id].kind == t[id].kind
      && r[id].extras == t[id].extras + (if t[id].kind == "string" then TextIfNamed(e, t[id].name) else [])
  {
  }

  /** The strings pass keeps the key set. */
  lemma {:induction false} ParseStringsKeys(t: Table, elems: seq<Element>)
    ensures ParseStringsFrom(t, elems).Keys == t.Keys
    decreases |elems|
  {
    if elems != [] {
      StringStepKeys(t, elems[0]);
      ParseStringsKeys(StringStep(t, elems[0]), elems[1..]);
    }
  }

  /** The strings pass on one entry: its name and kind stay, and a string entry gains the texts of its name in order. */
  lemma {:induction false} ParseStringsAt(t: Table, elems: seq<Element>, id: int)
    requires id in t
    ensures var r := ParseStringsFrom(t, elems);
      id in r && r[id].name == t[id].name && r[id].kind == t[id].kind
      && r[id].extras == t[id].extras + (if t[id].kind == "string" then TextsNamed(elems, t[id].name) else [])
    decreases |elems|
  {
    if elems == [] {
      assert t[id].extras + [] == t[id].extras;
    } else {
      var t' := StringStep(t, elems[0]);
      assert ParseStringsFrom(t, elems) == ParseStringsFrom(t', elems[1..]);
      StringStepAt(t, elems[0], id);
      ParseStringsAt(t', elems[1..], id);
      var n := t[id].name;
      assert TextsNamed(elems, n) == TextIfNamed(elems[0], n) + TextsNamed(elems[1..], n);
      if t[id].kind == "string" {
        assert t[id].extras + TextIfNamed(elems[0], n) + TextsNamed(elems[1..], n)
          == t[id].extras + (TextIfNamed(elems[0], n) + TextsNamed(elems[1..], n));
      }
    }
  }

  /**
   * The strings pass keeps the key set and every name and kind, and appends
   * to each string entry the texts of all elements of its name, in order;
   * other entries are unchanged.
   */
  lemma ParseStringsAppends(t: Table, elems: seq<Element>)
    ensures var r := ParseStringsFrom(t, elems);
      r.Keys == t.Keys
      && forall id | id in t ::
           r[id].name == t[id].name && r[id].kind == t[id].kind
           && r[id].extras == t[id].extras + (if t[id].kind == "string" then TextsNamed(elems, t[id].name) else [])
  {
    ParseStringsKeys(t, elems);
    forall id | id in t
      ensures var r := ParseStringsFrom(t, elems);
        r[id].name == t[id].name && r[id].kind == t[id].kind
        && r[id].extras == t[id].extras + (if t[id].kind == "string" then TextsNamed(elems, t[id].name) else [])
    {
      ParseStringsAt(t, elems, id);
    }
  }

  /**
   * The strings pass is not idempotent: when the file defines the name of a
   * string entry, a second pass appends its texts a second time.
   */
  lemma ParseStringsTwice(t: Table, elems: seq<Element>, id: int)
    requires id in t && t[id].kind == "string" && TextsNamed(elems, t[id].name) != []
    ensures var once := ParseStringsFrom(t, elems);
      var twice := ParseStringsFrom(once, elems);
      id in twice
      && twice[id].extras == t[id].extras + TextsNamed(elems, t[id].name) + TextsNamed(elems, t[id].name)
      && twice != once
  {
    var once := ParseStringsFrom(t, elems);
    ParseStringsAppends(t, elems);
    ParseStringsAppends(once, elems);
    var twice := ParseStringsFrom(once, elems);
    assert |twice[id].extras| > |once[id].extras|;
  }
}
