/** Character and string helpers shared by the server and the client models.
    Strings are sequences of Unicode scalar values; JavaScript's UTF-16 code
    units are not modelled. */
module Strings {

  /** `s.startsWith(prefix)`. */
  predicate StartsWith(s: string, prefix: string) {
    |prefix| <= |s| && s[..|prefix|] == prefix
  }

  /** `sub` occurs in `s` at index `i`. */
  predicate OccursAt(s: string, sub: string, i: int) {
    0 <= i && i + |sub| <= |s| && s[i..i + |sub|] == sub
  }

  /** `s.includes(sub)`, the `*=` attribute-selector test. */
  predicate Contains(s: string, sub: string) {
    exists i | 0 <= i <= |s| :: OccursAt(s, sub, i)
  }

  /** The case folding of a JavaScript regular expression with the `i` flag and
      without `u`: only ASCII letters fold onto ASCII letters, because a
      non-ASCII character never canonicalises to an ASCII one. */
  function AsciiLower(c: char): (d: char)
    ensures 'A' <= c <= 'Z' ==> 'a' <= d <= 'z' && d as int - c as int == 32
    ensures !('A' <= c <= 'Z') ==> d == c
  {
    if 'A' <= c <= 'Z' then (c as int + 32) as char else c
  }

  /** Every character of `s` case-folded. */
  function LowerAll(s: string): (t: string)
    ensures |t| == |s|
    ensures forall k :: 0 <= k < |s| ==> t[k] == AsciiLower(s[k])
  {
    seq(|s|, k requires 0 <= k < |s| => AsciiLower(s[k]))
  }

  /** The lower-case `word` matches `s` at index `i`, ignoring ASCII case. */
  predicate MatchesIgnoringCaseAt(s: string, i: int, word: string) {
    0 <= i && i + |word| <= |s| &&
    forall k :: 0 <= k < |word| ==> AsciiLower(s[i + k]) == word[k]
  }

  /** Folding is idempotent, so a match ignoring case sees through `LowerAll`. */
  lemma MatchesIgnoringCaseOfLower(s: string, i: int, word: string)
    ensures MatchesIgnoringCaseAt(LowerAll(s), i, word) <==> MatchesIgnoringCaseAt(s, i, word)
  {
  }
}
