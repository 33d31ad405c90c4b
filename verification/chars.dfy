/** Character classes shared by the text cleaner, the PDF word filter and the upload gate. */
module Chars {

  /** Python's whitespace (`str.isspace`, which is also what `\s` in a `re` pattern and
      `str.split()` without arguments use): the ASCII controls 9..13 and 28..31, the space,
      and the Unicode separators. */
  predicate IsSpace(c: char) {
    || (9 <= c as int <= 13)
    || (28 <= c as int <= 32)
    || c as int == 0x85
    || c as int == 0xA0
    || c as int == 0x1680
    || (0x2000 <= c as int <= 0x200A)
    || c as int == 0x2028
    || c as int == 0x2029
    || c as int == 0x202F
    || c as int == 0x205F
    || c as int == 0x3000
  }

  /** A word character (`\w`), restricted to ASCII: letters, digits and the underscore. */
  predicate IsWord(c: char) {
    ('a' <= c <= 'z') || ('A' <= c <= 'Z') || ('0' <= c <= '9') || c == '_'
  }

  /** The punctuation the cleaner keeps besides word characters and whitespace. */
  predicate IsKeptPunct(c: char) {
    c == '.' || c == ',' || c == ':' || c == '/' || c == '-'
  }

  /** A character that survives the cleaner's special-character filter `[^\w\s.,:/-]`. */
  predicate IsKept(c: char) {
    IsWord(c) || IsSpace(c) || IsKeptPunct(c)
  }

  /** Every character of `t` survives the special-character filter. */
  predicate AllKept(t: string) {
    forall k :: 0 <= k < |t| ==> IsKept(t[k])
  }

  /** Every whitespace character of `t` is a plain space. */
  predicate PlainSpaced(t: string) {
    forall k :: 0 <= k < |t| && IsSpace(t[k]) ==> t[k] == ' '
  }

  /** `t` has no whitespace at all. */
  predicate AllNonSpace(t: string) {
    forall k :: 0 <= k < |t| ==> !IsSpace(t[k])
  }

  lemma PlainSpacedAppend(a: string, b: string)
    requires PlainSpaced(a) && PlainSpaced(b)
    ensures PlainSpaced(a + b)
  {
    var t := a + b;
    forall k | 0 <= k < |t| && IsSpace(t[k])
      ensures t[k] == ' '
    {
      if k >= |a| {
        assert t[k] == b[k - |a|];
      }
    }
  }

  /** ASCII lowercasing of one character. */
  function LowerChar(c: char): char {
    if 'A' <= c <= 'Z' then (c as int + 32) as char else c
  }

  /** `str.lower()`, restricted to ASCII letters. */
  function Lower(s: string): (r: string)
    ensures |r| == |s|
    ensures forall k :: 0 <= k < |s| ==> r[k] == LowerChar(s[k])
  {
    seq(|s|, k requires 0 <= k < |s| => LowerChar(s[k]))
  }

  /** `Lower` works character by character, so it commutes with taking a suffix. */
  lemma LowerSuffix(s: string, a: nat)
    requires a <= |s|
    ensures Lower(s[a..]) == Lower(s)[a..]
  {
  }

  /** Only a '.' lowercases to a '.'. */
  lemma LowerCharDot(c: char)
    ensures LowerChar(c) == '.' <==> c == '.'
  {
  }
}
