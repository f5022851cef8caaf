/** Character classes and string comparisons of the C library, as the MAP
    reader uses them: `isspace` and `tolower` in the "C" locale, hexadecimal
    digits as `%X` reads them, and the prefix tests behind `strncmp` and
    `strncasecmp`. Strings are the characters of a C string before its
    terminator, so none of them holds a NUL. */
module Text {

  /** `isspace` in the "C" locale: space, tab, LF, VT, FF and CR. */
  predicate IsSpace(c: char) {
    c == ' ' || c == '\t' || c == '\n' || c == '\U{0B}' || c == '\U{0C}' || c == '\r'
  }

  /** A line terminator as `findEOL` tests it. */
  predicate IsEol(c: char) {
    c == '\r' || c == '\n'
  }

  predicate IsHexDigit(c: char) {
    ('0' <= c <= '9') || ('a' <= c <= 'f') || ('A' <= c <= 'F')
  }

  function HexDigitValue(c: char): (v: nat)
    requires IsHexDigit(c)
    ensures v < 16
  {
    if '0' <= c <= '9' then c as int - '0' as int
    else if 'a' <= c <= 'f' then c as int - 'a' as int + 10
    else c as int - 'A' as int + 10
  }

  /** The value of a run of hexadecimal digits, most significant first. */
  function HexValue(s: string): (v: nat)
    requires forall i :: 0 <= i < |s| ==> IsHexDigit(s[i])
    decreases |s|
  {
    if s == [] then 0 else HexValue(s[..|s| - 1]) * 16 + HexDigitValue(s[|s| - 1])
  }

  function Pow16(n: nat): (p: nat)
    ensures p >= 1
  {
    if n == 0 then 1 else 16 * Pow16(n - 1)
  }

  lemma {:induction false} HexValueBound(s: string)
    requires forall i :: 0 <= i < |s| ==> IsHexDigit(s[i])
    ensures HexValue(s) < Pow16(|s|)
    decreases |s|
  {
    if s != [] {
      HexValueBound(s[..|s| - 1]);
    }
  }

  /** `tolower` in the "C" locale. */
  function Lower(c: char): char {
    if 'A' <= c <= 'Z' then (c as int + 32) as char else c
  }

  /** Equal lengths and equal characters once both are lower-cased. */
  predicate EqualNoCase(a: string, b: string) {
    |a| == |b| && forall i :: 0 <= i < |a| ==> Lower(a[i]) == Lower(b[i])
  }

  predicate NulFree(s: string) {
    forall i :: 0 <= i < |s| ==> s[i] != '\0'
  }

  /** `strncmp(s, p, strlen(p)) == 0` for a string `s` that runs on past
      any shorter prefix only with bytes that never equal a character of `p`. */
  predicate StartsWith(s: string, p: string) {
    |p| <= |s| && s[..|p|] == p
  }

  /** `strncasecmp(s, p, strlen(p)) == 0` for NUL-terminated `s` and `p`:
      a shorter `s` meets its terminator first, which no character of `p`
      equals. */
  predicate StartsWithNoCase(s: string, p: string) {
    |p| <= |s| && EqualNoCase(s[..|p|], p)
  }

  /** A string whose first character differs, ignoring case, from that of
      `p` does not start with `p`. */
  lemma FirstCharExcludes(s: string, p: string)
    requires |s| > 0 && |p| > 0 && Lower(s[0]) != Lower(p[0])
    ensures !StartsWithNoCase(s, p) && !StartsWith(s, p)
  {
    if |p| <= |s| {
      assert s[..|p|][0] == s[0];
    }
  }

  /** `strncasecmp(line, hdr, lineLen) == 0` where `line` holds exactly
      `lineLen` NUL-free characters and `hdr` is NUL-terminated: at most
      `lineLen` characters are compared, and a line longer than `hdr` meets
      the header's terminator while it still has characters of its own. */
  predicate PrefixOfNoCase(line: string, hdr: string) {
    |line| <= |hdr| && EqualNoCase(line, hdr[..|line|])
  }

  /** At most `n` characters of `s`, as `strncpy` into a buffer of `n`. */
  function Take(s: string, n: nat): (r: string)
    ensures |r| <= n && |r| <= |s|
    ensures r == s[..|r|]
    ensures |r| == n || r == s
  {
    if |s| <= n then s else s[..n]
  }
}
