/**
 * The handful of Python string operations the annotator uses, with their
 * Python meaning: `str.find`, slicing from an index, `' ' * n` and
 * `re.split("\n", s)`. `Join`, which the annotator never calls, is the
 * reference inverse that pins `Split` down.
 */
module PyStr {

  /** `sub` occurs in `s` starting at index `i`. */
  predicate OccursAt(s: string, sub: string, i: int) {
    0 <= i && i + |sub| <= |s| && s[i..i + |sub|] == sub
  }

  function FindFrom(s: string, sub: string, k: nat): (r: int)
    ensures r == -1 || (k <= r && OccursAt(s, sub, r))
    ensures r == -1 <==> forall i | k <= i :: !OccursAt(s, sub, i)
    ensures forall i | k <= i < r :: !OccursAt(s, sub, i)
    decreases |s| - k
  {
    if k + |sub| > |s| then -1
    else if s[k..k + |sub|] == sub then k
    else FindFrom(s, sub, k + 1)
  }

  /** `s.find(sub)`: the lowest index at which `sub` occurs, or -1. */
  function Find(s: string, sub: string): (r: int)
    ensures r == -1 || OccursAt(s, sub, r)
    ensures r == -1 <==> forall i :: !OccursAt(s, sub, i)
    ensures forall i | 0 <= i < r :: !OccursAt(s, sub, i)
  {
    FindFrom(s, sub, 0)
  }

  /** `s[k:]`, including Python's clamping of an index past the end and its negative indices. */
  function SliceFrom(s: string, k: int): (r: string)
    ensures |r| <= |s| && r == s[|s| - |r|..]
    ensures 0 <= k <= |s| ==> r == s[k..]
    ensures k >= |s| ==> r == []
  {
    if k >= |s| then []
    else if k >= 0 then s[k..]
    else if |s| + k >= 0 then s[|s| + k..]
    else s
  }

  /** `' ' * n`. */
  function Spaces(n: nat): (r: string)
    ensures |r| == n && forall i | 0 <= i < n :: r[i] == ' '
  {
    if n == 0 then [] else [' '] + Spaces(n - 1)
  }

  /** `"\n".join(lines)`. */
  function Join(lines: seq<string>): string {
    if |lines| == 0 then []
    else if |lines| == 1 then lines[0]
    else lines[0] + "\n" + Join(lines[1..])
  }

  /** Each line followed by a newline, as `data += line + "\n"` accumulates them. */
  function Terminated(lines: seq<string>): string {
    if lines == [] then [] else lines[0] + "\n" + Terminated(lines[1..])
  }

  /**
   * `re.split("\n", s)`: the pieces between newlines, at least one, none
   * holding a newline, and joined back they give `s`.
   */
  function Split(s: string): (lines: seq<string>)
    ensures |lines| >= 1
    ensures forall i | 0 <= i < |lines| :: '\n' !in lines[i]
    ensures Join(lines) == s
  {
    if s == [] then [[]]
    else
      var rest := Split(s[1..]);
      if s[0] == '\n' then
        assert Join([[]] + rest) == "\n" + Join(rest) by {
          assert ([[]] + rest)[1..] == rest;
        }
        [[]] + rest
      else
        var lines := [[s[0]] + rest[0]] + rest[1..];
        assert Join(lines) == s by {
          if |rest| > 1 {
            assert lines[1..] == rest[1..];
          }
        }
        lines
  }

  lemma SplitCons(c: char, s: string)
    ensures Split([c] + s) ==
      if c == '\n' then [[]] + Split(s) else [[c] + Split(s)[0]] + Split(s)[1..]
  {
    assert ([c] + s)[1..] == s;
  }

  lemma JoinNonEmptyHead(lines: seq<string>)
    requires |lines| >= 1 && lines[0] != []
    ensures Join(lines) == [lines[0][0]] + Join([lines[0][1..]] + lines[1..])
  {
    var first := lines[0];
    var tail := [first[1..]] + lines[1..];
    assert first == [first[0]] + first[1..];
    assert tail[0] == first[1..] && |tail| == |lines|;
    if |lines| > 1 {
      assert tail[1..] == lines[1..];
      var rest := Join(lines[1..]);
      assert Join(lines) == first + "\n" + rest;
      assert Join(tail) == first[1..] + "\n" + rest;
      assert first + "\n" + rest == [first[0]] + (first[1..] + "\n" + rest);
    } else {
      assert Join(tail) == first[1..];
    }
  }

  /** Splitting undoes joining newline-free lines. */
  lemma {:induction false} SplitOfJoin(lines: seq<string>)
    requires |lines| >= 1
    requires forall i | 0 <= i < |lines| :: '\n' !in lines[i]
    ensures Split(Join(lines)) == lines
    decreases |Join(lines)|
  {
    var first := lines[0];
    if first == [] {
      if |lines| > 1 {
        var rest := lines[1..];
        SplitOfJoin(rest);
        assert Join(lines) == [] + "\n" + Join(rest);
        SplitCons('\n', Join(rest));
        assert [[]] + rest == lines;
      }
    } else {
      var tail := [first[1..]] + lines[1..];
      JoinNonEmptyHead(lines);
      assert first[0] in first;
      assert forall i | 0 <= i < |tail| :: '\n' !in tail[i] by {
        forall i | 0 <= i < |tail| ensures '\n' !in tail[i] {
          if i == 0 {
            assert forall c | c in first[1..] :: c in first;
          } else {
            assert tail[i] == lines[i];
          }
        }
      }
      SplitOfJoin(tail);
      SplitCons(first[0], Join(tail));
      assert [[first[0]] + tail[0]] + tail[1..] == lines by {
        assert [first[0]] + first[1..] == first;
      }
    }
  }

  /** Terminating every line is joining them and adding one final newline. */
  lemma {:induction false} TerminatedIsJoin(lines: seq<string>)
    requires |lines| >= 1
    ensures Terminated(lines) == Join(lines) + "\n"
  {
    if |lines| > 1 {
      TerminatedIsJoin(lines[1..]);
    } else {
      assert lines[1..] == [];
    }
  }

  /** `find` stops at an occurrence when the first character of `sub` does not appear before it. */
  lemma FindFirstAt(s: string, sub: string, i: int)
    requires sub != [] && OccursAt(s, sub, i) && sub[0] !in s[..i]
    ensures Find(s, sub) == i
  {
    forall j | 0 <= j < i ensures !OccursAt(s, sub, j) {
      assert s[j] == s[..i][j];
      if j + |sub| <= |s| {
        assert s[j..j + |sub|][0] == s[j];
      }
    }
  }

  /** `find` gives -1 when the first character of `sub` does not appear at all. */
  lemma FindAbsent(s: string, sub: string)
    requires sub != [] && sub[0] !in s
    ensures Find(s, sub) == -1
  {
    forall j ensures !OccursAt(s, sub, j) {
      if 0 <= j && j + |sub| <= |s| {
        assert s[j..j + |sub|][0] == s[j];
      }
    }
  }

  /** An occurrence in a prefix is an occurrence in the whole text. */
  lemma OccursInPrefix(a: string, b: string, sub: string, i: int)
    requires OccursAt(a, sub, i)
    ensures OccursAt(a + b, sub, i)
  {
    assert (a + b)[i..i + |sub|] == a[i..i + |sub|];
  }

  /** Joining two non-empty lists of lines is joining each and putting a newline between. */
  lemma {:induction false} JoinAppend(a: seq<string>, b: seq<string>)
    requires |a| >= 1 && |b| >= 1
    ensures Join(a + b) == Join(a) + "\n" + Join(b)
    decreases |a|
  {
    if |a| == 1 {
      assert (a + b)[0] == a[0] && (a + b)[1..] == b;
    } else {
      JoinAppend(a[1..], b);
      assert (a + b)[0] == a[0] && (a + b)[1..] == a[1..] + b;
    }
  }

  /** `re.split("\n", a + "\n" + b)` is the split of `a` followed by the split of `b`. */
  lemma SplitAppend(a: string, b: string)
    ensures Split(a + "\n" + b) == Split(a) + Split(b)
  {
    var la, lb := Split(a), Split(b);
    JoinAppend(la, lb);
    assert forall i | 0 <= i < |la + lb| :: '\n' !in (la + lb)[i] by {
      forall i | 0 <= i < |la + lb| ensures '\n' !in (la + lb)[i] {
        if i < |la| {
          assert (la + lb)[i] == la[i];
        } else {
          assert (la + lb)[i] == lb[i - |la|];
        }
      }
    }
    SplitOfJoin(la + lb);
  }

  /** Two newline-free lines joined by a newline split back into those two lines. */
  lemma SplitTwo(first: string, second: string)
    requires '\n' !in first && '\n' !in second
    ensures Split(first + "\n" + second) == [first, second]
    ensures Split(first + ("\n" + second)) == [first, second]
  {
    assert first + ("\n" + second) == first + "\n" + second;
    assert Join([first, second]) == first + "\n" + second by {
      assert [first, second][1..] == [second];
    }
    SplitOfJoin([first, second]);
  }
}
