/** The static helpers of Bayfront\StringHelpers\Str (src/Str.php): substring
    tests, prefix and suffix helpers, the case converters and the random
    string and UUID generators. The PHP built-ins they call are in module
    Php; the word-level reasoning behind the converters is in module WordSplit. */
module Str {
  import opened Ascii
  import opened Php
  import opened WordSplit
  import opened Bits

  /** `suffix` is a suffix of `s`. */
  predicate IsSuffix(suffix: string, s: string)
  {
    |suffix| <= |s| && s[|s| - |suffix|..] == suffix
  }

  // ---------------------------------------------------------------------
  // has, hasSpace

  /** has: strpos finds `needle` somewhere in `s`. */
  function Has(s: string, needle: string): (r: bool)
    ensures r <==> exists k :: OccursAt(s, needle, k)
  {
    StrPos(s, needle).Some?
  }

  /** The empty needle is in every string (PHP 8 strpos), a needle longer
      than the string is in none, and a string holds each of its pieces. */
  lemma HasEdgeCases(s: string, needle: string, a: string, b: string)
    ensures Has(s, "")
    ensures |needle| > |s| ==> !Has(s, needle)
    ensures Has(a + needle + b, needle)
  {
    assert OccursAt(s, "", 0);
    var t := a + needle + b;
    assert t[|a|..|a| + |needle|] == needle;
    assert OccursAt(t, needle, |a|);
  }

  /** hasSpace: the string holds the byte ' '. */
  function HasSpace(s: string): (r: bool)
    ensures r <==> exists i :: 0 <= i < |s| && s[i] == ' '
  {
    SpaceOccurs(s);
    StrPos(s, " ").Some?
  }

  lemma SpaceOccurs(s: string)
    ensures (exists k :: OccursAt(s, " ", k)) <==> (exists i :: 0 <= i < |s| && s[i] == ' ')
  {
    if exists i :: 0 <= i < |s| && s[i] == ' ' {
      var i :| 0 <= i < |s| && s[i] == ' ';
      assert s[i..i + 1] == [s[i]];
      assert OccursAt(s, " ", i);
    }
    if exists k :: OccursAt(s, " ", k) {
      var k :| OccursAt(s, " ", k);
      assert s[k..k + 1][0] == s[k];
    }
  }

  /** Only the space byte counts: tabs, newlines and the other whitespace
      bytes do not. */
  lemma HasSpaceOnlySpace()
    ensures !HasSpace("\t\n\r\U{B}\U{C}")
    ensures HasSpace("a b")
  {
  }

  // ---------------------------------------------------------------------
  // startsWith, endsWith, startWith, endWith

  /** startsWith: substr($s, 0, strlen($prefix)) === $prefix. */
  function StartsWith(s: string, prefix: string := ""): (r: bool)
    ensures r <==> prefix <= s
  {
    Substr(s, 0, Some(|prefix|)) == prefix
  }

  /** endsWith: an empty suffix, or substr($s, -strlen($suffix)) === $suffix. */
  function EndsWith(s: string, suffix: string := ""): (r: bool)
    ensures r <==> IsSuffix(suffix, s)
  {
    var n := |suffix|;
    n == 0 || Substr(s, -n, None) == suffix
  }

  /** Every string starts and ends with "", and with nothing longer than
      itself. */
  lemma StartsEndsEdgeCases(s: string, p: string)
    ensures StartsWith(s) && EndsWith(s)
    ensures |p| > |s| ==> !StartsWith(s, p) && !EndsWith(s, p)
  {
  }

  /** startWith: prepend `prefix` unless `s` already starts with it. */
  function StartWith(s: string, prefix: string := ""): (r: string)
    ensures prefix <= r
    ensures prefix <= s ==> r == s
    ensures !(prefix <= s) ==> r == prefix + s
  {
    if !StartsWith(s, prefix) then prefix + s else s
  }

  lemma StartWithIdempotent(s: string, prefix: string)
    ensures StartWith(StartWith(s, prefix), prefix) == StartWith(s, prefix)
  {
  }

  /** endWith: append `suffix` unless `s` already ends with it. */
  function EndWith(s: string, suffix: string := ""): (r: string)
    ensures IsSuffix(suffix, r)
    ensures IsSuffix(suffix, s) ==> r == s
    ensures !IsSuffix(suffix, s) ==> r == s + suffix
  {
    if !EndsWith(s, suffix) then
      assert (s + suffix)[|s|..] == suffix;
      s + suffix
    else s
  }

  lemma EndWithIdempotent(s: string, suffix: string)
    ensures EndWith(EndWith(s, suffix), suffix) == EndWith(s, suffix)
  {
  }

  // ---------------------------------------------------------------------
  // lowercase

  /** lowercase: mb_convert_case to lower case. On ASCII input this maps
      A-Z to a-z and leaves every other byte alone. */
  function Lowercase(s: string): (r: string)
    requires AllAscii(s)
    ensures |r| == |s| && NoUpper(r) && AllAscii(r)
    ensures forall i :: 0 <= i < |s| && IsUpper(s[i]) ==> IsLower(r[i]) && (r[i] as int) == (s[i] as int) + 32
    ensures forall i :: 0 <= i < |s| && !IsUpper(s[i]) ==> r[i] == s[i]
  {
    LowerChars(s);
    Lower(s)
  }

  // ---------------------------------------------------------------------
  // camelCase

  /** camelCase: runs of non-alphanumeric bytes become one space, then
      trim, strtolower, ucwords, strip the spaces and lcfirst. */
  function CamelCase(s: string): string
  {
    var spaced := ReplaceNonAlnumRuns(s, ' ');
    var titled := UcWords(Lower(Trim(spaced, TrimDefault)), UcWordsDefault);
    LcFirst(RemoveChar(titled, ' '))
  }

  /** What camelCase means on the words of its input: the first word in
      lower case, then every later word in lower case with its first byte
      upper-cased (a word that starts with a digit is left as it is), with
      nothing between them. */
  function CamelJoin(ws: seq<string>): string
  {
    if ws == [] then [] else Lower(ws[0]) + Concat(UcFirstEach(LowerEach(ws[1..])))
  }

  lemma LcFirstUcFirstLower(w: string, rest: string)
    requires w != []
    ensures LcFirst(UcFirst(Lower(w)) + rest) == Lower(w) + rest
  {
  }

  lemma CamelConcat(ws: seq<string>)
    requires IsWordList(ws)
    ensures LcFirst(Concat(UcFirstEach(LowerEach(ws)))) == CamelJoin(ws)
  {
    if ws != [] {
      var c := UcFirstEach(LowerEach(ws));
      assert c[1..] == UcFirstEach(LowerEach(ws[1..]));
      assert Concat(c) == c[0] + Concat(c[1..]);
      LcFirstUcFirstLower(ws[0], Concat(c[1..]));
    }
  }

  /** camelCase is CamelJoin of the words of its input. */
  lemma CamelCaseWords(s: string)
    ensures CamelCase(s) == CamelJoin(Words(s))
  {
    var ws := Words(s);
    ReplaceThenTrim(s, ' ', TrimDefault);
    LowerJoin(ws, ' ');
    EachKeepsWords(ws);
    var lws := LowerEach(ws);
    UcWordsJoin(lws, ' ', UcWordsDefault);
    EachKeepsWords(lws);
    RemoveJoin(UcFirstEach(lws), ' ');
    CamelConcat(ws);
  }

  lemma {:induction false} ConcatAlnum(ws: seq<string>)
    requires IsWordList(ws)
    ensures AllAlnum(Concat(ws))
    ensures ws != [] ==> Concat(ws) != []
  {
    if ws != [] {
      ConcatAlnum(ws[1..]);
    }
  }

  /** The result of camelCase holds only ASCII letters and digits, does not
      start with an upper-case letter, is empty exactly when the input has
      no letter or digit, and loses no letter or digit of the input apart
      from its case. */
  lemma CamelCaseShape(s: string)
    ensures var r := CamelCase(s);
      && AllAlnum(r)
      && (r == [] || !IsUpper(r[0]))
      && (r == [] <==> AlnumOf(s) == [])
      && Lower(r) == Lower(AlnumOf(s))
  {
    CamelCaseWords(s);
    ConcatWords(s);
    NoWords(s);
    var ws := Words(s);
    if ws != [] {
      var tail := UcFirstEach(LowerEach(ws[1..]));
      EachKeepsWords(ws[1..]);
      EachKeepsWords(LowerEach(ws[1..]));
      ConcatAlnum(tail);
      LowerChars(ws[0]);
      var r := Lower(ws[0]) + Concat(tail);
      assert AllAlnum(r);
      assert r[0] == Lower(ws[0])[0];
      CamelLowerContent(ws);
    }
  }

  lemma {:induction false} LowerConcatEach(ws: seq<string>)
    ensures Lower(Concat(UcFirstEach(LowerEach(ws)))) == Lower(Concat(ws))
  {
    if ws != [] {
      var c := UcFirstEach(LowerEach(ws));
      assert c[1..] == UcFirstEach(LowerEach(ws[1..]));
      LowerConcatEach(ws[1..]);
      LowerAppend(c[0], Concat(c[1..]));
      LowerAppend(ws[0], Concat(ws[1..]));
      LowerUcFirstLower(ws[0]);
    }
  }

  lemma LowerUcFirstLower(w: string)
    ensures Lower(UcFirst(Lower(w))) == Lower(w)
  {
  }

  lemma CamelLowerContent(ws: seq<string>)
    requires ws != []
    ensures Lower(CamelJoin(ws)) == Lower(Concat(ws))
  {
    var tail := UcFirstEach(LowerEach(ws[1..]));
    LowerAppend(Lower(ws[0]), Concat(tail));
    LowerFixpoint(ws[0]);
    LowerConcatEach(ws[1..]);
    LowerAppend(ws[0], Concat(ws[1..]));
  }

  // ---------------------------------------------------------------------
  // kebabCase, snakeCase

  /** The byte that replaces each run of non-alphanumeric bytes is itself
      ASCII, so the string handed to iconv is ASCII and transliteration
      has nothing to change. */
  lemma {:induction false} ReplacedAscii(s: string, sep: char)
    requires IsAsciiChar(sep)
    ensures AllAscii(ReplaceNonAlnumRuns(s, sep))
    decreases |s|
  {
    if s != [] {
      if IsAlnum(s[0]) {
        ReplacedAscii(s[1..], sep);
      } else {
        ReplacedAscii(s[GapLength(s)..], sep);
      }
    }
  }

  lemma JoinAscii(ws: seq<string>, sep: char)
    requires IsWordList(ws) && IsAsciiChar(sep) && !IsAlnum(sep)
    ensures AllAscii(Join(ws, sep))
  {
  }

  /** After the replacement, trim and squeeze, the string is the words of
      the input joined by `sep`, and it is ASCII. */
  lemma SlugSteps(s: string, sep: char)
    requires IsAsciiChar(sep) && !IsAlnum(sep)
    ensures var j := Join(Words(s), sep);
      && Squeeze(Trim(ReplaceNonAlnumRuns(s, sep), {sep}), sep) == j
      && AllAscii(j)
  {
    var ws := Words(s);
    var j := Join(ws, sep);
    assert forall ch :: ch in {sep} ==> !IsAlnum(ch);
    ReplaceThenTrim(s, sep, {sep});
    JoinShape(ws, sep);
    SqueezeNoRuns(j, sep);
    JoinAscii(ws, sep);
  }

  /** The shared body of kebabCase and snakeCase, with `sep` the
      replacement byte ('-' or '_'). */
  function SlugCase(s: string, sep: char, lowercase: bool): string
    requires IsAsciiChar(sep) && !IsAlnum(sep)
  {
    var replaced := ReplaceNonAlnumRuns(s, sep);
    ReplacedAscii(s, sep);
    var trimmed := Trim(TransliterateAscii(replaced), {sep});
    var squeezed := Squeeze(trimmed, sep);
    SlugSteps(s, sep);
    if lowercase then Lowercase(squeezed) else squeezed
  }

  /** The words of the converted string, which are the words of the input,
      lower-cased when `lowercase` is set. */
  function SlugWords(s: string, lowercase: bool): seq<string>
  {
    if lowercase then LowerEach(Words(s)) else Words(s)
  }

  lemma SlugCaseWords(s: string, sep: char, lowercase: bool)
    requires IsAsciiChar(sep) && !IsAlnum(sep)
    ensures SlugCase(s, sep, lowercase) == Join(SlugWords(s, lowercase), sep)
    ensures IsWordList(SlugWords(s, lowercase))
  {
    SlugSteps(s, sep);
    EachKeepsWords(Words(s));
    if lowercase {
      LowerJoin(Words(s), sep);
    }
  }

  lemma {:induction false} JoinNoUpper(ws: seq<string>, sep: char)
    requires forall i :: 0 <= i < |ws| ==> NoUpper(ws[i])
    requires !IsUpper(sep)
    ensures NoUpper(Join(ws, sep))
  {
    if |ws| >= 2 {
      JoinNoUpper(ws[1..], sep);
      var j := Join(ws, sep);
      var w, rest := ws[0], Join(ws[1..], sep);
      assert j == w + [sep] + rest;
      forall i | 0 <= i < |j| ensures !IsUpper(j[i]) {
        if i < |w| {
          assert j[i] == w[i];
        } else if i > |w| {
          assert j[i] == rest[i - |w| - 1];
        }
      }
    }
  }

  /** Only letters, digits and single `sep` bytes strictly inside; empty
      exactly when the input has no letter or digit; the words of the input
      in order, their case kept unless `lowercase` is set, and no upper-case
      letter when it is. Without its separators the result is the input's
      letters and digits, lower-cased when asked. */
  lemma SlugCaseShape(s: string, sep: char, lowercase: bool)
    requires IsAsciiChar(sep) && !IsAlnum(sep)
    ensures var r := SlugCase(s, sep, lowercase);
      && (forall i :: 0 <= i < |r| ==> IsAlnum(r[i]) || r[i] == sep)
      && (r == [] <==> AlnumOf(s) == [])
      && (r != [] ==> r[0] != sep && r[|r| - 1] != sep)
      && NoRepeat(r, sep)
      && Words(r) == SlugWords(s, lowercase)
      && RemoveChar(r, sep) == (if lowercase then Lower(AlnumOf(s)) else AlnumOf(s))
      && (lowercase ==> NoUpper(r))
  {
    SlugCaseWords(s, sep, lowercase);
    var ws := SlugWords(s, lowercase);
    JoinShape(ws, sep);
    WordsOfJoin(ws, sep);
    SlugCaseLetters(s, sep, lowercase);
    if lowercase {
      forall i | 0 <= i < |ws| ensures NoUpper(ws[i]) {
        LowerChars(Words(s)[i]);
      }
      JoinNoUpper(ws, sep);
    }
  }

  /** Removing the separators from a slug leaves the input's letters and
      digits, lower-cased when asked. */
  lemma SlugCaseLetters(s: string, sep: char, lowercase: bool)
    requires IsAsciiChar(sep) && !IsAlnum(sep)
    ensures var r := SlugCase(s, sep, lowercase);
      && (r == [] <==> AlnumOf(s) == [])
      && RemoveChar(r, sep) == (if lowercase then Lower(AlnumOf(s)) else AlnumOf(s))
  {
    SlugCaseWords(s, sep, lowercase);
    var ws := SlugWords(s, lowercase);
    EachKeepsWords(Words(s));
    JoinShape(ws, sep);
    NoWords(s);
    ConcatWords(s);
    RemoveJoin(ws, sep);
    ConcatLowerEach(Words(s));
  }

  /** Converting a converted string again changes nothing. */
  lemma SlugCaseIdempotent(s: string, sep: char, lowercase: bool)
    requires IsAsciiChar(sep) && !IsAlnum(sep)
    ensures SlugCase(SlugCase(s, sep, lowercase), sep, lowercase) == SlugCase(s, sep, lowercase)
  {
    var r := SlugCase(s, sep, lowercase);
    SlugCaseShape(s, sep, lowercase);
    SlugCaseWords(r, sep, lowercase);
    SlugCaseWords(s, sep, lowercase);
    if lowercase {
      LowerEachIdempotent(Words(s));
    }
  }

  /** kebabCase: words joined by '-', case kept unless asked otherwise. */
  function KebabCase(s: string, lowercase: bool := false): string
  {
    SlugCase(s, '-', lowercase)
  }

  /** snakeCase: words joined by '_', lower-cased unless asked otherwise. */
  function SnakeCase(s: string, lowercase: bool := true): string
  {
    SlugCase(s, '_', lowercase)
  }

  lemma KebabCaseShape(s: string, lowercase: bool)
    ensures var r := KebabCase(s, lowercase);
      && r == Join(SlugWords(s, lowercase), '-')
      && (forall i :: 0 <= i < |r| ==> IsAlnum(r[i]) || r[i] == '-')
      && (r != [] ==> r[0] != '-' && r[|r| - 1] != '-')
      && NoRepeat(r, '-')
      && Words(r) == SlugWords(s, lowercase)
      && (lowercase ==> NoUpper(r))
  {
    SlugCaseWords(s, '-', lowercase);
    SlugCaseShape(s, '-', lowercase);
  }

  lemma KebabCaseIdempotent(s: string, lowercase: bool)
    ensures KebabCase(KebabCase(s, lowercase), lowercase) == KebabCase(s, lowercase)
  {
    SlugCaseIdempotent(s, '-', lowercase);
  }

  lemma SnakeCaseShape(s: string, lowercase: bool)
    ensures var r := SnakeCase(s, lowercase);
      && r == Join(SlugWords(s, lowercase), '_')
      && (forall i :: 0 <= i < |r| ==> IsAlnum(r[i]) || r[i] == '_')
      && (r != [] ==> r[0] != '_' && r[|r| - 1] != '_')
      && NoRepeat(r, '_')
      && Words(r) == SlugWords(s, lowercase)
      && (lowercase ==> NoUpper(r))
  {
    SlugCaseWords(s, '_', lowercase);
    SlugCaseShape(s, '_', lowercase);
  }

  lemma SnakeCaseIdempotent(s: string, lowercase: bool)
    ensures SnakeCase(SnakeCase(s, lowercase), lowercase) == SnakeCase(s, lowercase)
  {
    SlugCaseIdempotent(s, '_', lowercase);
  }

  // ---------------------------------------------------------------------
  // random

  const LowerLetters: string := "abcdefghijklmnopqrstuvwxyz"
  const UpperLetters: string := "ABCDEFGHIJKLMNOPQRSTUVWXYZ"
  /** $alpha: the lower-case letters, then the upper-case ones. */
  const AlphaChars: string := LowerLetters + UpperLetters
  const NonzeroChars: string := "123456789"
  const NumericChars: string := "0123456789"
  const SpecialChars: string := "-=/\\[];,.~!@#$%^&*()_+{}|:?<>"

  /** The characters random() draws from for each type; any other type
      gets the full set, special characters included. */
  function Pool(kind: string): (p: string)
    ensures |p| >= 9
  {
    if kind == "nonzero" then NonzeroChars
    else if kind == "alpha" then AlphaChars
    else if kind == "numeric" then NumericChars
    else if kind == "alphanumeric" then NonzeroChars + AlphaChars + NumericChars
    else NonzeroChars + AlphaChars + NumericChars + SpecialChars
  }

  predicate IsSpecial(c: char)
  {
    c in {'-', '=', '/', '\\', '[', ']', ';', ',', '.', '~', '!', '@', '#', '$', '%',
          '^', '&', '*', '(', ')', '_', '+', '{', '}', '|', ':', '?', '<', '>'}
  }

  /** The characters each type of random string may hold, by class. */
  predicate Allowed(kind: string, c: char)
  {
    if kind == "nonzero" then '1' <= c <= '9'
    else if kind == "alpha" then IsAlpha(c)
    else if kind == "numeric" then IsDigit(c)
    else if kind == "alphanumeric" then IsAlnum(c)
    else IsAlnum(c) || IsSpecial(c)
  }

  lemma InLowerLetters(c: char)
    ensures c in LowerLetters <==> IsLower(c)
  {
  }

  lemma InUpperLetters(c: char)
    ensures c in UpperLetters <==> IsUpper(c)
  {
  }

  lemma InNumericChars(c: char)
    ensures c in NumericChars <==> IsDigit(c)
  {
  }

  lemma InNonzeroChars(c: char)
    ensures c in NonzeroChars <==> '1' <= c <= '9'
  {
  }

  lemma InSpecialChars(c: char)
    ensures c in SpecialChars <==> IsSpecial(c)
  {
  }

  /** The pool of each type holds exactly the characters that type allows;
      in particular an unknown type draws from letters, digits and the
      special characters. */
  lemma PoolAllowed(kind: string, c: char)
    ensures c in Pool(kind) <==> Allowed(kind, c)
  {
    if kind == "nonzero" {
      InNonzeroChars(c);
    } else if kind == "alpha" {
      InLowerLetters(c);
      InUpperLetters(c);
    } else if kind == "numeric" {
      InNumericChars(c);
    } else {
      InNonzeroChars(c);
      InLowerLetters(c);
      InUpperLetters(c);
      InNumericChars(c);
      InSpecialChars(c);
      assert c in NonzeroChars ==> IsDigit(c);
      if kind == "alphanumeric" {
        assert Pool(kind) == NonzeroChars + AlphaChars + NumericChars;
      } else {
        assert Pool(kind) == NonzeroChars + AlphaChars + NumericChars + SpecialChars;
      }
    }
  }

  /** The characters picked from `pool` by the draws, one per draw. */
  function Picks(pool: string, draws: seq<int>): (r: string)
    requires forall i :: 0 <= i < |draws| ==> 0 <= draws[i] < |pool|
    ensures |r| == |draws|
    ensures forall i :: 0 <= i < |draws| ==> r[i] == pool[draws[i]]
  {
    seq(|draws|, i requires 0 <= i < |draws| => pool[draws[i]])
  }

  /** random($length, $type): one character of the pool per iteration,
      `draws[i]` standing for the i-th call random_int(0, $max), then
      implode('', $pieces). A length of zero or less gives "". */
  method Random(draws: seq<int>, length: int := 8, kind: string := "all") returns (r: string)
    requires length <= |draws|
    requires forall i :: 0 <= i < |draws| ==> 0 <= draws[i] < |Pool(kind)|
    ensures |r| == if length < 0 then 0 else length
    ensures r == Picks(Pool(kind), draws[..|r|])
    ensures forall i :: 0 <= i < |r| ==> Allowed(kind, r[i])
  {
    var chars := Pool(kind);
    var pieces: seq<string> := [];
    var i := 0;
    while i < length
      invariant 0 <= i <= |draws|
      invariant length >= 0 ==> i <= length
      invariant length < 0 ==> i == 0
      invariant Concat(pieces) == Picks(chars, draws[..i])
    {
      ConcatSnoc(pieces, [chars[draws[i]]]);
      assert Picks(chars, draws[..i + 1]) == Picks(chars, draws[..i]) + [chars[draws[i]]];
      pieces := pieces + [[chars[draws[i]]]];
      i := i + 1;
    }
    r := Concat(pieces);
    forall j | 0 <= j < |r| ensures Allowed(kind, r[j]) {
      PoolAllowed(kind, r[j]);
    }
  }

  /** The first position of `c` in `s`. */
  function IndexOf(s: string, c: char): (k: nat)
    requires c in s
    ensures k < |s| && s[k] == c
  {
    if s[0] == c then 0 else 1 + IndexOf(s[1..], c)
  }

  /** Every string whose characters the type allows is the outcome of some
      draws: random() can produce any of them. */
  lemma PicksReachAllowed(kind: string, t: string)
    requires forall i :: 0 <= i < |t| ==> Allowed(kind, t[i])
    ensures exists draws: seq<int> ::
      && |draws| == |t|
      && (forall i :: 0 <= i < |draws| ==> 0 <= draws[i] < |Pool(kind)|)
      && Picks(Pool(kind), draws) == t
  {
    var pool := Pool(kind);
    forall i | 0 <= i < |t| ensures t[i] in pool {
      PoolAllowed(kind, t[i]);
    }
    var draws := seq(|t|, i requires 0 <= i < |t| => IndexOf(pool, t[i]) as int);
    assert Picks(pool, draws) == t;
  }

  /** How many characters each type draws from; an unknown type is
      treated as "all". */
  lemma PoolSizes(kind: string)
    ensures |Pool("nonzero")| == 9 && |Pool("alpha")| == 52 && |Pool("numeric")| == 10
    ensures |Pool("alphanumeric")| == 71 && |Pool("all")| == 100
    ensures kind !in {"nonzero", "alpha", "numeric", "alphanumeric"} ==> Pool(kind) == Pool("all")
  {
  }

  /** No pool holds a quote or a backtick. */
  lemma PoolHasNoQuotes(kind: string, c: char)
    requires c == '\'' || c == '"' || c == '`'
    ensures c !in Pool(kind)
  {
    assert !IsAlnum(c) && !IsSpecial(c);
    PoolAllowed(kind, c);
  }

  // ---------------------------------------------------------------------
  // uuid

  /** The eight mt_rand draws uuid() makes, each within its range. */
  predicate UuidDraws(d: seq<int>)
  {
    && |d| == 8
    && (forall i :: 0 <= i < 8 ==> 0 <= d[i] <= 0xffff)
    && d[3] <= 0x0fff
    && d[4] <= 0x3fff
  }

  /** The eight values uuid() prints: the draws, with the version bits
      `| 0x4000` on the fourth and the variant bits `| 0x8000` on the
      fifth. */
  function UuidValues(d: seq<int>): (v: seq<nat>)
    requires UuidDraws(d)
    ensures |v| == 8
  {
    [d[0], d[1], d[2], BitOr(d[3], 0x4000), BitOr(d[4], 0x8000), d[5], d[6], d[7]]
  }

  /** uuid(): sprintf('%04x%04x-%04x-%04x-%04x-%04x%04x%04x', ...) of those
      values. */
  function Uuid(d: seq<int>): string
    requires UuidDraws(d)
  {
    var v := UuidValues(d);
    FormatHex(v[0], 4) + FormatHex(v[1], 4) + "-" + FormatHex(v[2], 4) + "-"
      + FormatHex(v[3], 4) + "-" + FormatHex(v[4], 4) + "-"
      + FormatHex(v[5], 4) + FormatHex(v[6], 4) + FormatHex(v[7], 4)
  }

  lemma Pow2Values()
    ensures Pow2(12) == 0x1000 && Pow2(14) == 0x4000
  {
  }

  /** The version and variant bits are free in the drawn values, so `|`
      adds them. */
  lemma OrVersion(x: nat)
    requires x < 0x1000
    ensures BitOr(x, 0x4000) == x + 0x4000
  {
    Pow2Values();
    BitOrDisjoint(x, 4, 12);
  }

  lemma OrVariant(x: nat)
    requires x < 0x4000
    ensures BitOr(x, 0x8000) == x + 0x8000
  {
    Pow2Values();
    BitOrDisjoint(x, 2, 14);
  }

  lemma UuidBits(d: seq<int>)
    requires UuidDraws(d)
    ensures UuidValues(d)[3] == d[3] + 0x4000
    ensures UuidValues(d)[4] == d[4] + 0x8000
    ensures forall k :: 0 <= k < 8 ==> UuidValues(d)[k] < 0x10000
  {
    OrVersion(d[3]);
    OrVariant(d[4]);
  }

  /** The groups of a UUID string at their offsets. */
  predicate GroupsAt(u: string, g: seq<string>)
  {
    && |g| == 8
    && (forall k :: 0 <= k < 8 ==> |g[k]| == 4)
    && |u| == 36
    && u[0..4] == g[0] && u[4..8] == g[1] && u[9..13] == g[2] && u[14..18] == g[3]
    && u[19..23] == g[4] && u[24..28] == g[5] && u[28..32] == g[6] && u[32..36] == g[7]
    && u[8] == '-' && u[13] == '-' && u[18] == '-' && u[23] == '-'
  }

  /** `%04x` of each value. */
  function Groups(v: seq<nat>): (g: seq<string>)
    ensures |g| == |v|
  {
    seq(|v|, k requires 0 <= k < |v| => FormatHex(v[k], 4))
  }

  lemma UuidGroups(d: seq<int>)
    requires UuidDraws(d)
    ensures GroupsAt(Uuid(d), Groups(UuidValues(d)))
  {
    var v := UuidValues(d);
    var g := Groups(v);
    UuidBits(d);
    forall k | 0 <= k < 8 ensures |g[k]| == 4 {
      FormatHex4RoundTrip(v[k]);
    }
    var u := Uuid(d);
    assert u == g[0] + g[1] + "-" + g[2] + "-" + g[3] + "-" + g[4] + "-" + g[5] + g[6] + g[7];
  }

  /** Where each group of four digits starts in a UUID string. */
  function Offset(k: nat): nat
    requires k < 8
  {
    [0, 4, 9, 14, 19, 24, 28, 32][k]
  }

  lemma GroupsAtOffsets(u: string, g: seq<string>)
    requires GroupsAt(u, g)
    ensures forall k :: 0 <= k < 8 ==> u[Offset(k)..Offset(k) + 4] == g[k]
  {
  }

  /** Reading four lower-case hexadecimal digits at `at`, if they are
      there. */
  function HexGroup(u: string, at: nat): (r: Option<nat>)
    ensures r.Some? ==> r.value < 0x10000
  {
    if at + 4 <= |u| && forall i :: at <= i < at + 4 ==> IsLowerHex(u[i]) then
      var s := u[at..at + 4];
      HexValue4(s);
      Some(HexValue(s))
    else None
  }

  /** Each group of a UUID holds the value printed there, in lower-case
      hexadecimal. */
  lemma UuidGroupValues(d: seq<int>, k: nat)
    requires UuidDraws(d) && k < 8
    ensures HexGroup(Uuid(d), Offset(k)) == Some(UuidValues(d)[k] as nat)
  {
    var u := Uuid(d);
    UuidGroups(d);
    GroupsAtOffsets(u, Groups(UuidValues(d)));
    UuidBits(d);
    FormatHex4RoundTrip(UuidValues(d)[k]);
    assert u[Offset(k)..Offset(k) + 4] == FormatHex(UuidValues(d)[k], 4);
    forall i | Offset(k) <= i < Offset(k) + 4 ensures IsLowerHex(u[i]) {
      assert u[i] == u[Offset(k)..Offset(k) + 4][i - Offset(k)];
    }
  }

  /** Reading a UUID string back into the eight draws that produced it, or
      None when it does not have the shape uuid() prints. */
  function ParseUuid(u: string): Option<seq<int>>
  {
    if |u| != 36 || u[8] != '-' || u[13] != '-' || u[18] != '-' || u[23] != '-' then None
    else if exists k :: 0 <= k < 8 && HexGroup(u, Offset(k)).None? then None
    else
      var v := seq(8, k requires 0 <= k < 8 => HexGroup(u, Offset(k)).value);
      if v[3] / 0x1000 != 4 || v[4] / 0x4000 != 2 then None
      else Some([v[0], v[1], v[2], v[3] - 0x4000, v[4] - 0x8000, v[5], v[6], v[7]])
  }

  /** Parsing what uuid() prints gives back the draws. */
  lemma UuidRoundTrip(d: seq<int>)
    requires UuidDraws(d)
    ensures ParseUuid(Uuid(d)) == Some(d)
  {
    var u := Uuid(d);
    var w := UuidValues(d);
    UuidGroups(d);
    UuidBits(d);
    forall k | 0 <= k < 8 ensures HexGroup(u, Offset(k)) == Some(w[k] as nat) {
      UuidGroupValues(d, k);
    }
    ParseGroups(u, w, d);
  }

  /** A string with the hyphens in place whose groups read as the printed
      values parses back to the draws. */
  lemma ParseGroups(u: string, w: seq<nat>, d: seq<int>)
    requires UuidDraws(d) && |w| == 8
    requires w[3] == d[3] + 0x4000 && w[4] == d[4] + 0x8000
    requires forall k :: 0 <= k < 8 && k != 3 && k != 4 ==> w[k] == d[k]
    requires |u| == 36 && u[8] == '-' && u[13] == '-' && u[18] == '-' && u[23] == '-'
    requires forall k :: 0 <= k < 8 ==> HexGroup(u, Offset(k)) == Some(w[k])
    ensures ParseUuid(u) == Some(d)
  {
    var v := seq(8, k requires 0 <= k < 8 => HexGroup(u, Offset(k)).value);
    assert v == w;
    assert [w[0], w[1], w[2], w[3] - 0x4000, w[4] - 0x8000, w[5], w[6], w[7]] == d;
  }

  /** A value with the version bits set prints '4' first. */
  lemma VersionDigit(x: nat)
    requires 0x4000 <= x < 0x5000
    ensures FormatHex(x, 4)[0] == '4'
  {
    FormatHex4(x);
    assert x / 0x1000 == 4;
  }

  /** A value with the variant bits 10 prints 8, 9, a or b first. */
  lemma VariantDigit(x: nat)
    requires 0x8000 <= x < 0xC000
    ensures var c := FormatHex(x, 4)[0]; c == '8' || c == '9' || c == 'a' || c == 'b'
  {
    FormatHex4(x);
    assert 8 <= x / 0x1000 < 12;
  }

  lemma UuidHexDigits(d: seq<int>)
    requires UuidDraws(d)
    ensures var u := Uuid(d);
      |u| == 36 && forall i :: 0 <= i < 36 && i != 8 && i != 13 && i != 18 && i != 23 ==> IsLowerHex(u[i])
  {
    var u := Uuid(d);
    UuidGroups(d);
    forall k | 0 <= k < 8 ensures HexGroup(u, Offset(k)).Some? {
      UuidGroupValues(d, k);
    }
    forall i | 0 <= i < 36 && i != 8 && i != 13 && i != 18 && i != 23 ensures IsLowerHex(u[i]) {
      var k := if i < 4 then 0 else if i < 8 then 1 else if i < 13 then 2 else if i < 18 then 3
        else if i < 23 then 4 else if i < 28 then 5 else if i < 32 then 6 else 7;
      assert Offset(k) <= i < Offset(k) + 4;
    }
  }

  lemma UuidVersion(d: seq<int>)
    requires UuidDraws(d)
    ensures var u := Uuid(d); |u| == 36 && u[14] == '4'
  {
    var u := Uuid(d);
    var w := UuidValues(d);
    UuidGroups(d);
    UuidBits(d);
    assert u[14] == u[14..18][0] == Groups(w)[3][0];
    VersionDigit(w[3]);
  }

  lemma UuidVariant(d: seq<int>)
    requires UuidDraws(d)
    ensures var u := Uuid(d); |u| == 36 && (u[19] == '8' || u[19] == '9' || u[19] == 'a' || u[19] == 'b')
  {
    var u := Uuid(d);
    var w := UuidValues(d);
    UuidGroups(d);
    UuidBits(d);
    assert u[19] == u[19..23][0] == Groups(w)[4][0];
    VariantDigit(w[4]);
  }

  /** What uuid() prints: 36 characters, hyphens exactly at offsets 8, 13,
      18 and 23, lower-case hexadecimal digits everywhere else, the
      version digit '4' at offset 14 and a variant digit among 8, 9, a, b
      at offset 19. */
  lemma UuidShape(d: seq<int>)
    requires UuidDraws(d)
    ensures var u := Uuid(d);
      && |u| == 36
      && (forall i :: 0 <= i < 36 ==> (u[i] == '-' <==> i == 8 || i == 13 || i == 18 || i == 23))
      && (forall i :: 0 <= i < 36 && i != 8 && i != 13 && i != 18 && i != 23 ==> IsLowerHex(u[i]))
      && u[14] == '4'
      && (u[19] == '8' || u[19] == '9' || u[19] == 'a' || u[19] == 'b')
  {
    UuidGroups(d);
    UuidHexDigits(d);
    UuidVersion(d);
    UuidVariant(d);
  }
}
