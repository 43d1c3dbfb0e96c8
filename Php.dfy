/** The PHP 8 built-in string functions that Str.php composes, modelled for
    the arguments it passes them: strpos, substr, trim, ucwords, lcfirst,
    str_replace of one byte by nothing, and the two preg_replace patterns
    `/[^a-z0-9]+/i` (no `u` flag, so it works byte by byte) and `/c+/` for
    a single byte c. strtolower is Ascii.Lower. UcFirst is not called by
    Str.php; it is a helper stating what ucwords does to each word. */
module Php {
  import opened Ascii

  datatype Option<T> = None | Some(value: T)

  /** `needle` occurs in `s` starting at byte offset `k`. */
  predicate OccursAt(s: string, needle: string, k: int)
  {
    0 <= k && k + |needle| <= |s| && s[k..k + |needle|] == needle
  }

  /** strpos($haystack, $needle, $from): the first offset at or after `from`
      where `needle` occurs, or None (PHP's false). Since PHP 8 an empty
      needle is found at the starting offset. */
  function StrPosFrom(haystack: string, needle: string, from: nat): (r: Option<nat>)
    ensures r.Some? ==> from <= r.value && OccursAt(haystack, needle, r.value)
    ensures r.Some? ==> forall j :: from <= j < r.value ==> !OccursAt(haystack, needle, j)
    ensures r.None? ==> forall j :: from <= j ==> !OccursAt(haystack, needle, j)
    decreases |haystack| - from
  {
    if from + |needle| > |haystack| then None
    else if haystack[from..from + |needle|] == needle then Some(from)
    else StrPosFrom(haystack, needle, from + 1)
  }

  function StrPos(haystack: string, needle: string): Option<nat>
  {
    StrPosFrom(haystack, needle, 0)
  }

  /** substr($s, $offset, $length) as PHP 8 computes it: an offset past the
      end gives "", a negative offset counts from the end and is clamped to
      0, an absent length means "to the end", a negative length drops that
      many bytes from the end, and a length past the end is clamped. */
  function Substr(s: string, offset: int, length: Option<int>): string
  {
    var n := |s|;
    if offset > n then ""
    else
      var f := if offset >= 0 then offset else if -offset > n then 0 else n + offset;
      var l := match length
        case None => n - f
        case Some(k) =>
          if k < 0 then (if -k > n - f then 0 else n - f + k)
          else if k > n - f then n - f
          else k;
      s[f..f + l]
  }

  /** The bytes trim() strips when it is given no character list:
      " \t\n\r\0\x0B". */
  const TrimDefault: set<char> := {' ', '\t', '\n', '\r', '\0', '\U{B}'}

  /** The delimiters ucwords() uses when it is given none: " \t\r\n\f\v". */
  const UcWordsDefault: set<char> := {' ', '\t', '\r', '\n', '\U{C}', '\U{B}'}

  function TrimLeft(s: string, chars: set<char>): (r: string)
    ensures |r| <= |s|
    ensures r == [] || r[0] !in chars
  {
    if s != [] && s[0] in chars then TrimLeft(s[1..], chars) else s
  }

  function TrimRight(s: string, chars: set<char>): (r: string)
    ensures |r| <= |s|
    ensures r == [] || r[|r| - 1] !in chars
  {
    if s != [] && s[|s| - 1] in chars then TrimRight(s[..|s| - 1], chars) else s
  }

  /** trim($s, $chars): strip bytes of `chars` from both ends. */
  function Trim(s: string, chars: set<char>): string
  {
    TrimRight(TrimLeft(s, chars), chars)
  }

  /** Upper-case the first byte, as ucwords does to each word. */
  function UcFirst(s: string): (r: string)
    ensures |r| == |s|
    ensures s != [] ==> r[0] == UpperChar(s[0]) && r[1..] == s[1..]
  {
    if s == [] then [] else [UpperChar(s[0])] + s[1..]
  }

  /** lcfirst: lower-case the first byte. */
  function LcFirst(s: string): (r: string)
    ensures |r| == |s|
    ensures s != [] ==> r[0] == LowerChar(s[0]) && r[1..] == s[1..]
  {
    if s == [] then [] else [LowerChar(s[0])] + s[1..]
  }

  /** ucwords($s, $delims): upper-case the first byte and every byte that
      follows a delimiter. */
  function UcWords(s: string, delims: set<char>): (r: string)
    ensures |r| == |s|
  {
    seq(|s|, i requires 0 <= i < |s| =>
      if i == 0 || s[i - 1] in delims then UpperChar(s[i]) else s[i])
  }

  /** str_replace($c, "", $s) for a one-byte search string: delete every
      occurrence of `c`. */
  function RemoveChar(s: string, c: char): (r: string)
    ensures |r| <= |s|
    ensures forall i :: 0 <= i < |r| ==> r[i] != c
  {
    if s == [] then []
    else (if s[0] == c then [] else [s[0]]) + RemoveChar(s[1..], c)
  }

  /** The length of the leading run of bytes that `[^a-z0-9]` matches. */
  function GapLength(s: string): (n: nat)
    ensures n <= |s|
    ensures n == |s| || IsAlnum(s[n])
    ensures s != [] && !IsAlnum(s[0]) ==> n > 0
  {
    if s == [] || IsAlnum(s[0]) then 0 else 1 + GapLength(s[1..])
  }

  /** preg_replace('/[^a-z0-9]+/i', $rep, $s) for a one-byte replacement:
      every maximal run of bytes that are not ASCII letters or digits
      becomes one `rep`. */
  function ReplaceNonAlnumRuns(s: string, rep: char): string
    decreases |s|
  {
    if s == [] then []
    else if IsAlnum(s[0]) then [s[0]] + ReplaceNonAlnumRuns(s[1..], rep)
    else [rep] + ReplaceNonAlnumRuns(s[GapLength(s)..], rep)
  }

  /** No two adjacent bytes of `s` are both `c`. */
  predicate NoRepeat(s: string, c: char)
  {
    forall i, k :: 0 <= i < |s| && 0 <= k < |s| && k == i + 1 ==> !(s[i] == c && s[k] == c)
  }

  /** The rest of `s` after its leading copies of `c`. */
  function DropLeading(s: string, c: char): (r: string)
    ensures |r| <= |s|
    ensures r == [] || r[0] != c
    decreases |s|
  {
    if s != [] && s[0] == c then DropLeading(s[1..], c) else s
  }

  /** preg_replace('/c+/', 'c', $s): every run of `c` becomes one `c`. */
  function Squeeze(s: string, c: char): (r: string)
    ensures NoRepeat(r, c)
    ensures s != [] ==> r != [] && r[0] == s[0]
    decreases |s|
  {
    if s == [] then []
    else if s[0] == c then [c] + Squeeze(DropLeading(s[1..], c), c)
    else [s[0]] + Squeeze(s[1..], c)
  }

  /** iconv('utf-8', 'us-ascii//TRANSLIT', $s) on input that is already
      ASCII, the only input it receives in Str.php: every byte is kept. */
  function TransliterateAscii(s: string): string
    requires AllAscii(s)
  {
    s
  }
}
