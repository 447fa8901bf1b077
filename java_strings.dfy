/**
 * The string primitives the manipulators call, with the semantics of java.lang.String
 * (indexOf, contains, startsWith, endsWith, split with a one-character literal pattern)
 * and of commons-lang StringUtils (substringBefore, substringAfter, removeStart).
 * A Java `null` never reaches these calls in the modelled code, so they take plain strings.
 */
module JavaStrings {

  /** `sub` occurs in `s` starting at index `i`. */
  predicate OccursAt(s: string, sub: string, i: int) {
    0 <= i && i + |sub| <= |s| && s[i..i + |sub|] == sub
  }

  /** String.indexOf(sub, from): the first index at or after `from` where `sub` occurs, or -1. */
  function IndexOfFrom(s: string, sub: string, from: nat): (r: int)
    ensures r == -1 || (from <= r && OccursAt(s, sub, r))
    ensures forall i :: from <= i && (r == -1 || i < r) ==> !OccursAt(s, sub, i)
    decreases |s| - from
  {
    if from + |sub| > |s| then -1
    else if s[from..from + |sub|] == sub then from
    else IndexOfFrom(s, sub, from + 1)
  }

  /** String.indexOf(sub). */
  function IndexOf(s: string, sub: string): int {
    IndexOfFrom(s, sub, 0)
  }

  /** String.contains(sub). */
  predicate Contains(s: string, sub: string) {
    IndexOf(s, sub) != -1
  }

  /** String.startsWith(prefix). */
  predicate StartsWith(s: string, prefix: string) {
    |prefix| <= |s| && s[..|prefix|] == prefix
  }

  /** String.endsWith(suffix). */
  predicate EndsWith(s: string, suffix: string) {
    |suffix| <= |s| && s[|s| - |suffix|..] == suffix
  }

  /** StringUtils.substringBefore(str, separator) for a non-null separator. */
  function SubstringBefore(str: string, separator: string): string {
    if str == "" then str
    else if separator == "" then ""
    else
      var pos := IndexOf(str, separator);
      if pos == -1 then str else str[..pos]
  }

  /** StringUtils.substringAfter(str, separator) for a non-null separator. */
  function SubstringAfter(str: string, separator: string): string {
    if str == "" then str
    else
      var pos := IndexOf(str, separator);
      if pos == -1 then "" else str[pos + |separator|..]
  }

  /** StringUtils.removeStart(str, remove). */
  function RemoveStart(str: string, remove: string): string {
    if str == "" || remove == "" then str
    else if StartsWith(str, remove) then str[|remove|..]
    else str
  }

  /**
   * substringBefore and substringAfter cut a string at the first occurrence of the
   * separator: the part before contains no occurrence, and the two parts put back
   * together around the separator give the original string.
   */
  lemma SubstringBeforeAfter(str: string, separator: string)
    requires separator != "" && Contains(str, separator)
    ensures SubstringBefore(str, separator) + separator + SubstringAfter(str, separator) == str
    ensures !Contains(SubstringBefore(str, separator), separator)
  {
    var pos := IndexOf(str, separator);
    var before := str[..pos];
    assert SubstringBefore(str, separator) == before;
    assert str == before + str[pos..pos + |separator|] + str[pos + |separator|..];
    var k := IndexOf(before, separator);
    if k != -1 {
      assert OccursAt(before, separator, k);
      assert str[k..k + |separator|] == before[k..k + |separator|];
      assert OccursAt(str, separator, k);
    }
  }

  /** removeStart undoes a concatenation: it takes back exactly what was appended. */
  lemma RemoveStartOfConcat(prefix: string, rest: string)
    ensures RemoveStart(prefix + rest, prefix) == rest
  {
    if prefix != "" {
      assert (prefix + rest)[..|prefix|] == prefix;
      assert (prefix + rest)[|prefix|..] == rest;
    }
  }

  /** The index of the first `c` in `s`. */
  function FirstIndexOf(s: string, c: char): (i: nat)
    requires c in s
    ensures i < |s| && s[i] == c && c !in s[..i]
  {
    if s[0] == c then 0
    else
      var j := FirstIndexOf(s[1..], c);
      assert s[..j + 1] == [s[0]] + s[1..][..j];
      j + 1
  }

  /**
   * Every piece of `s` between occurrences of `c`, empty pieces included: the pieces of
   * String.split before trailing empty pieces are dropped.
   */
  function SplitAll(s: string, c: char): (parts: seq<string>)
    ensures |parts| >= 1
    ensures forall i :: 0 <= i < |parts| ==> c !in parts[i]
    decreases |s|
  {
    if c !in s then [s]
    else
      var i := FirstIndexOf(s, c);
      [s[..i]] + SplitAll(s[i + 1..], c)
  }

  /** Concatenates `parts` with `c` between consecutive parts. */
  function Join(parts: seq<string>, c: char): string
    requires |parts| >= 1
  {
    if |parts| == 1 then parts[0] else parts[0] + [c] + Join(parts[1..], c)
  }

  /** Splitting loses nothing: joining the pieces back with the separator restores the string. */
  lemma {:induction false} JoinSplitAll(s: string, c: char)
    ensures Join(SplitAll(s, c), c) == s
    decreases |s|
  {
    if c in s {
      var i := FirstIndexOf(s, c);
      JoinSplitAll(s[i + 1..], c);
      assert s == s[..i] + [c] + s[i + 1..];
    }
  }

  /** Drops the empty strings at the end of `parts`. */
  function DropTrailingEmpty(parts: seq<string>): (r: seq<string>)
    ensures |r| <= |parts| && r == parts[..|r|]
    ensures |r| > 0 ==> r[|r| - 1] != ""
    ensures forall i :: |r| <= i < |parts| ==> parts[i] == ""
  {
    if |parts| > 0 && parts[|parts| - 1] == "" then DropTrailingEmpty(parts[..|parts| - 1]) else parts
  }

  /**
   * String.split(c) for a one-character pattern that is not a regular-expression
   * metacharacter: the string itself when `c` does not occur, otherwise the pieces
   * between occurrences with trailing empty pieces removed.
   */
  function Split(s: string, c: char): (r: seq<string>)
    ensures forall i :: 0 <= i < |r| ==> c !in r[i]
    ensures c in s ==> |r| <= |SplitAll(s, c)| && r == SplitAll(s, c)[..|r|]
  {
    if c !in s then [s] else DropTrailingEmpty(SplitAll(s, c))
  }

  /** A string with a single separator and a non-empty tail splits into exactly its two sides. */
  lemma SplitAtSingleSeparator(left: string, right: string, c: char)
    requires c !in left && c !in right && right != ""
    ensures Split(left + [c] + right, c) == [left, right]
  {
    var s := left + [c] + right;
    assert s[|left|] == c && s[..|left|] == left;
    var i := FirstIndexOf(s, c);
    assert i <= |left| ==> s[..i] == left[..i];
    assert s[..i] == left;
    assert s[i + 1..] == right;
    assert SplitAll(right, c) == [right];
    assert SplitAll(s, c) == [left, right];
  }
}
