/** Byte classes and the ASCII case maps that PHP's ctype-based string
    functions (strtolower, ucfirst, lcfirst, ucwords) apply byte by byte.
    A PHP string is a byte sequence; here each `char` stands for one byte,
    and every value outside the ASCII letters and digits behaves like a
    high byte: it is neither a letter nor a digit and no case map touches it. */
module Ascii {

  predicate IsLower(c: char) { 'a' <= c <= 'z' }

  predicate IsUpper(c: char) { 'A' <= c <= 'Z' }

  predicate IsDigit(c: char) { '0' <= c <= '9' }

  predicate IsAlpha(c: char) { IsLower(c) || IsUpper(c) }

  /** The class that `[a-z0-9]` matches under the `i` flag without `u`. */
  predicate IsAlnum(c: char) { IsAlpha(c) || IsDigit(c) }

  predicate IsAsciiChar(c: char) { c < 128 as char }

  predicate AllAscii(s: string) { forall i :: 0 <= i < |s| ==> IsAsciiChar(s[i]) }

  predicate AllAlnum(s: string) { forall i :: 0 <= i < |s| ==> IsAlnum(s[i]) }

  predicate NoUpper(s: string) { forall i :: 0 <= i < |s| ==> !IsUpper(s[i]) }

  /** C `tolower` in the "C" locale. */
  function LowerChar(c: char): (d: char)
    ensures !IsUpper(d)
    ensures IsAlnum(d) <==> IsAlnum(c)
    ensures IsUpper(c) ==> IsLower(d) && (d as int) == (c as int) + 32
    ensures !IsUpper(c) ==> d == c
  {
    if IsUpper(c) then ((c as int) + 32) as char else c
  }

  /** C `toupper` in the "C" locale. */
  function UpperChar(c: char): (d: char)
    ensures !IsLower(d)
    ensures IsAlnum(d) <==> IsAlnum(c)
    ensures IsLower(c) ==> IsUpper(d) && (d as int) == (c as int) - 32
    ensures !IsLower(c) ==> d == c
  {
    if IsLower(c) then ((c as int) - 32) as char else c
  }

  /** Byte-wise lower-casing of a whole string (strtolower since PHP 8.2, and
      mb_convert_case to lower case on ASCII input). */
  function Lower(s: string): (r: string)
    ensures |r| == |s|
    ensures forall i :: 0 <= i < |s| ==> r[i] == LowerChar(s[i])
  {
    seq(|s|, i requires 0 <= i < |s| => LowerChar(s[i]))
  }

  lemma LowerChars(s: string)
    ensures NoUpper(Lower(s))
    ensures AllAlnum(s) ==> AllAlnum(Lower(s))
    ensures AllAscii(s) ==> AllAscii(Lower(s))
  {
  }

  lemma LowerAppend(a: string, b: string)
    ensures Lower(a + b) == Lower(a) + Lower(b)
  {
  }

  /** Lower-casing changes exactly the strings that hold an upper-case
      letter, and a second pass changes nothing. */
  lemma LowerFixpoint(s: string)
    ensures Lower(s) == s <==> NoUpper(s)
    ensures Lower(Lower(s)) == Lower(s)
  {
  }
}
