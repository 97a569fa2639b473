/** The character sets the text layer uses, and the helpers that measure or
    remove runs of set members at either end of a string. A set is a
    membership predicate on scalars. */
module CharacterRuns {

  /** Foundation's `whitespaceCharacterSet`: Unicode general category Zs and
      CHARACTER TABULATION (U+0009). */
  predicate IsWhitespace(c: char)
  {
    var n := c as int;
    n == 0x09 || n == 0x20 || n == 0xA0 || n == 0x1680 || (0x2000 <= n <= 0x200A)
    || n == 0x202F || n == 0x205F || n == 0x3000
  }

  /** The newline characters of `whitespaceAndNewlineCharacterSet`: U+000A to
      U+000D, U+0085, and the line and paragraph separators (categories Zl, Zp). */
  predicate IsNewline(c: char)
  {
    var n := c as int;
    (0x0A <= n <= 0x0D) || n == 0x85 || n == 0x2028 || n == 0x2029
  }

  /** `whitespaceAndNewlineCharacterSet`. */
  predicate IsWhitespaceOrNewline(c: char)
  {
    IsWhitespace(c) || IsNewline(c)
  }

  /** The comment-line prefix set: whitespace, newlines and '*', for
      "wall of asterisk" comment blocks. */
  predicate IsCommentLinePrefix(c: char)
  {
    IsWhitespaceOrNewline(c) || c == '*'
  }

  /** Length of the longest prefix of `s` whose characters all lie in the set. */
  function LeadingRun(s: string, inSet: char -> bool): (n: nat)
    ensures n <= |s|
    ensures forall i :: 0 <= i < n ==> inSet(s[i])
    ensures n < |s| ==> !inSet(s[n])
  {
    if s == [] || !inSet(s[0]) then 0 else 1 + LeadingRun(s[1..], inSet)
  }

  /** `s` without the longest suffix whose characters all lie in the set. */
  function TrimTrailing(s: string, inSet: char -> bool): (r: string)
    ensures |r| <= |s| && r == s[..|r|]
    ensures forall i :: |r| <= i < |s| ==> inSet(s[i])
    ensures r != [] ==> !inSet(r[|r| - 1])
  {
    if s == [] || !inSet(s[|s| - 1]) then s else TrimTrailing(s[..|s| - 1], inSet)
  }

  /** `stringByTrimmingCharactersInSet`: `s` without its longest in-set
      prefix and, of what remains, its longest in-set suffix. */
  function Trim(s: string, inSet: char -> bool): (r: string)
    ensures LeadingRun(s, inSet) + |r| <= |s|
    ensures r == s[LeadingRun(s, inSet)..LeadingRun(s, inSet) + |r|]
    ensures forall i :: 0 <= i < LeadingRun(s, inSet) ==> inSet(s[i])
    ensures forall i :: LeadingRun(s, inSet) + |r| <= i < |s| ==> inSet(s[i])
    ensures r != [] ==> !inSet(r[0]) && !inSet(r[|r| - 1])
  {
    var n := LeadingRun(s, inSet);
    var r := TrimTrailing(s[n..], inSet);
    SuffixSlice(s, n, |r|);
    r
  }

  /** A prefix of the suffix from `n` is a slice of `s`, and the suffix's
      characters are those of `s`, shifted by `n`. */
  lemma SuffixSlice(s: string, n: nat, m: nat)
    requires n + m <= |s|
    ensures s[n..][..m] == s[n..n + m]
    ensures forall i :: n <= i < |s| ==> s[i] == s[n..][i - n]
  {
  }

  /** A prefix that ends at a non-member and is followed only by members is
      the trimmed string: trailing trimming has exactly one answer. */
  lemma TrimTrailingUnique(s: string, inSet: char -> bool, n: nat)
    requires n <= |s|
    requires forall i :: n <= i < |s| ==> inSet(s[i])
    requires n > 0 ==> !inSet(s[n - 1])
    ensures TrimTrailing(s, inSet) == s[..n]
  {
  }

  /** Trimming leaves nothing exactly when every character is in the set. */
  lemma TrimEmpty(s: string, inSet: char -> bool)
    ensures Trim(s, inSet) == [] <==> forall i :: 0 <= i < |s| ==> inSet(s[i])
  {
  }

  /** `countOfLeadingCharactersInSet`: counts characters from the start
      until the first one outside the set. */
  method CountOfLeadingCharactersInSet(s: string, inSet: char -> bool) returns (count: nat)
    ensures count == LeadingRun(s, inSet)
  {
    count := 0;
    for i := 0 to |s|
      invariant count == i
      invariant forall k :: 0 <= k < i ==> inSet(s[k])
    {
      if !inSet(s[i]) {
        break;
      }
      count := count + 1;
    }
    LeadingRunUnique(s, inSet, count);
  }

  /** A prefix of members that ends the string or stops at a non-member is
      the longest in-set prefix. */
  lemma LeadingRunUnique(s: string, inSet: char -> bool, n: nat)
    requires n <= |s|
    requires forall i :: 0 <= i < n ==> inSet(s[i])
    requires n < |s| ==> !inSet(s[n])
    ensures LeadingRun(s, inSet) == n
  {
  }

  /** `stringByTrimmingTrailingCharactersInSet`: copies the characters into a
      buffer and walks it backwards for the last one outside the set. An
      empty string comes back unchanged, one made only of members as "". */
  method StringByTrimmingTrailingCharactersInSet(s: string, inSet: char -> bool) returns (r: string)
    ensures r == TrimTrailing(s, inSet)
  {
    if |s| == 0 {
      return s;
    }
    var charBuffer := new char[|s|](i requires 0 <= i < |s| => s[i]);
    var newLength := |s|;
    while newLength >= 1
      invariant 0 <= newLength <= |s|
      invariant forall i :: newLength <= i < |s| ==> inSet(s[i])
      invariant charBuffer[..] == s
    {
      if !inSet(charBuffer[newLength - 1]) {
        TrimTrailingUnique(s, inSet, newLength);
        return s[..newLength];
      }
      newLength := newLength - 1;
    }
    TrimTrailingUnique(s, inSet, 0);
    return "";
  }
}
