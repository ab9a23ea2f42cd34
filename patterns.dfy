/**
 * The two instruction shapes the annotator recognises, written as string
 * predicates equivalent to `re.search` with
 *   CONST_REGEX         = "const[ /-].*0x[a-fA-F0-9]{4,8}$"
 *   PACKED_SWITCH_REGEX = "\.packed-switch 0x[a-fA-F0-9]{4,8}$"
 * on a line that holds no newline (every line the annotator sees comes from
 * splitting a file on newlines, so `.` matches any of its characters and `$`
 * is the end of the line).
 */
module Patterns {
  import opened Hex
  import opened PyStr

  /** The line ends with `0x` followed by exactly `k` hex digits. */
  predicate HexTail(line: string, k: nat) {
    k + 2 <= |line|
    && line[|line| - k - 2..|line| - k] == "0x"
    && AllHex(line[|line| - k..])
  }

  /** `const` followed by one of ` `, `/`, `-` starts at index `i`. */
  predicate ConstKeywordAt(line: string, i: int) {
    0 <= i && i + 6 <= |line|
    && line[i..i + 5] == "const"
    && (line[i + 5] == ' ' || line[i + 5] == '/' || line[i + 5] == '-')
  }

  /** `re.search(CONST_REGEX, line)`: the keyword ends at or before the trailing `0x` literal. */
  predicate ConstPattern(line: string) {
    exists k | 4 <= k <= 8 ::
      HexTail(line, k) && exists i | 0 <= i <= |line| - k - 8 :: ConstKeywordAt(line, i)
  }

  /** `re.search(PACKED_SWITCH_REGEX, line)`. */
  predicate PackedSwitchPattern(line: string) {
    exists k | 4 <= k <= 8 ::
      HexTail(line, k) && k + 17 <= |line|
      && line[|line| - k - 17..|line| - k - 2] == ".packed-switch "
  }

  /** A matching const line is at least `const 0x` and four digits, and ends in a hex digit. */
  lemma ConstPatternShape(line: string)
    requires ConstPattern(line)
    ensures |line| >= 12 && IsHexDigit(line[|line| - 1])
    ensures exists k | 4 <= k <= 8 :: HexTail(line, k)
  {
    var k :| 4 <= k <= 8 && HexTail(line, k) && exists i | 0 <= i <= |line| - k - 8 :: ConstKeywordAt(line, i);
    assert line[|line| - 1] == line[|line| - k..][k - 1];
  }

  /** A line matching the const pattern holds the letter `o` of `const`. */
  lemma ConstPatternHasO(line: string)
    ensures ConstPattern(line) ==> 'o' in line
  {
    if ConstPattern(line) {
      var k :| 4 <= k <= 8 && HexTail(line, k) && exists i | 0 <= i <= |line| - k - 8 :: ConstKeywordAt(line, i);
      var i :| 0 <= i <= |line| - k - 8 && ConstKeywordAt(line, i);
      assert line[i + 1] == line[i..i + 5][1];
    }
  }

  /**
   * A packed-switch directive, indented by `n` spaces, never matches the
   * const pattern, so the `elif` branch is reachable.
   */
  lemma PackedSwitchIsNotConst(n: nat, h: string)
    requires AllHex(h)
    ensures !ConstPattern(Spaces(n) + ".packed-switch 0x" + h)
  {
    var line := Spaces(n) + ".packed-switch 0x" + h;
    ConstPatternHasO(line);
    NotInHex(h, 'o');
    assert 'o' !in ".packed-switch 0x";
    assert 'o' !in Spaces(n);
  }

  /** A packed-switch directive, indented by `n` spaces, on 4 to 8 hex digits matches its pattern. */
  lemma PackedSwitchMatches(n: nat, h: string)
    requires AllHex(h) && 4 <= |h| <= 8
    ensures PackedSwitchPattern(Spaces(n) + ".packed-switch 0x" + h)
  {
    var line := Spaces(n) + ".packed-switch 0x" + h;
    assert line[n + 15..n + 17] == "0x";
    assert line[n + 17..] == h;
    assert line[n..n + 15] == ".packed-switch ";
    assert HexTail(line, |h|);
  }

  /**
   * A line whose text `p` holds `const` and one of ` `, `/`, `-` at index
   * `i`, followed by `0x` and 4 to 8 hex digits, matches the const pattern.
   */
  lemma ConstMatches(p: string, i: nat, h: string)
    requires AllHex(h) && 4 <= |h| <= 8
    requires ConstKeywordAt(p, i)
    ensures ConstPattern(p + "0x" + h)
  {
    var line := p + "0x" + h;
    assert line[|p|..|p| + 2] == "0x";
    assert line[|p| + 2..] == h;
    assert line[i..i + 5] == p[i..i + 5];
    assert HexTail(line, |h|) && ConstKeywordAt(line, i);
  }
}
