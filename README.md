# php-string-helpers in Dafny

A verified model of `Bayfront\StringHelpers\Str`, the static string-helper
class of the PHP library php-string-helpers (`src/Str.php`). The class offers:

- substring tests: `has`, `hasSpace`, `startsWith` and `endsWith`;
- prefix and suffix helpers: `startWith` and `endWith`;
- case converters: `lowercase`, `camelCase`, `kebabCase` and `snakeCase`;
- generators: `random` strings and version-4 `uuid` strings.

Each method is a short composition of PHP built-ins. The model writes every
built-in out as it behaves in PHP 8 on the arguments `Str` passes it, then
proves what the compositions mean.

Modules (one file each):

- `Ascii` (Ascii.dfy): byte classes and the C-locale case maps. A PHP
  string is a byte string, and each Dafny `char` stands for one byte.
- `Php` (Php.dfy): the built-ins:
  - `strpos` and `substr`;
  - `trim` with a character set;
  - `lcfirst` and `ucwords`, with `UcFirst` as a helper that states what
    ucwords does to each word;
  - `str_replace` of one byte;
  - the two regex replacements used, `/[^a-z0-9]+/i` and `/c+/`;
  - `iconv` on ASCII input.
- `WordSplit` (WordSplit.dfy): a reference definition, `Words(s)`, the maximal
  runs of ASCII letters and digits of `s`. It also holds the lemmas that say
  what each built-in does to words joined by a separator byte.
- `Bits` (Bits.dfy): PHP's `|` on non-negative integers, and sprintf's `%04x`
  with its inverse (the value of a hexadecimal numeral).
- `Str` (Str.dfy): the methods of the class and the properties proved about
  them.
- `StrExamples` (Examples.dfy): worked examples, proved as instances of
  lemmas about arbitrary words.

What the model establishes:

- **has**: holds exactly when the needle occurs at some offset. The empty needle
  is found in every string.
- **hasSpace**: holds exactly when the byte `' '` occurs.
- **startsWith / endsWith**: exactly prefix and suffix.
- **startWith / endWith**:
  - the result has the prefix (suffix);
  - an input that already has it is returned as is;
  - otherwise the prefix (suffix) is concatenated;
  - both are idempotent.
- **camelCase**: equals the first word lower-cased, followed by every later word
  lower-cased with its first byte upper-cased (a word that starts with a digit
  is left as it is, so "a 1b" becomes "a1b"). The result holds only letters
  and digits and does not start with an upper-case letter. Up to case, it is
  exactly the input's letters and digits in order (`WordSplit.ConcatWords`
  shows that the words, run together, are those letters and digits).
- **kebabCase / snakeCase**:
  - the result equals the words of the input joined by `-` / `_`, lower-cased
    when the flag is set (default false for kebab, true for snake);
  - separators never appear at an end, and never two in a row;
  - the words of the result are the words of the input, lower-cased when the
    flag is set;
  - without its separators the result is the input's letters and digits,
    lower-cased when the flag is set;
  - applying the conversion again changes nothing.
- **random**: implemented as a loop.
  - the length is `max(length, 0)`;
  - each character is the pool character at the corresponding draw;
  - each character belongs to the class the type names, and an unknown type
    means "all";
  - every string over that class is reachable.
- **uuid**:
  - the result has 36 characters, with hyphens exactly at offsets 8, 13, 18
    and 23;
  - every other character is a lower-case hexadecimal digit;
  - offset 14 is `4` and offset 19 is one of `8 9 a b`;
  - parsing the string gives back the eight draws.

Two behaviours of the code are worth spelling out:

- `hasSpace` is documented as checking for "any whitespace"
  (src/Str.php:30), but it looks for the space byte only
  (src/Str.php:39). Tabs and newlines do not count
  (`Str.HasSpaceOnlySpace`).
- In `kebabCase` and `snakeCase` the regex replacement (src/Str.php:199)
  runs before `iconv` (src/Str.php:202). So transliteration only ever sees
  ASCII (`Str.ReplacedAscii`). The bytes of a non-ASCII letter are replaced
  before they can be transliterated: "Café" becomes "Caf", not "Cafe"
  (`StrExamples.NonAsciiLetterDropped`).

## Model

| member | source | states |
|---|---|---|
| Php.StrPosFrom | src/Str.php:26 | strpos returns the first offset where the needle occurs, or nothing when it occurs nowhere |
| Str.Has | src/Str.php:24-27 | has is true exactly when the needle occurs at some offset of the string |
| Str.HasEdgeCases | src/Str.php:24-27 | the empty needle is in every string; a needle longer than the string is in none; a string contains each of its pieces |
| Str.SpaceOccurs | src/Str.php:39 | searching for " " succeeds exactly when some byte is a space |
| Str.HasSpace | src/Str.php:37-40 | hasSpace is true exactly when some byte is ' ' |
| Str.HasSpaceOnlySpace | src/Str.php:37-40 | tabs, newlines, vertical tab and form feed are not spaces for hasSpace |
| Str.StartsWith | src/Str.php:51-54 | startsWith is true exactly when the argument is a prefix of the string |
| Str.EndsWith | src/Str.php:65-72 | endsWith is true exactly when the argument is a suffix of the string (always for "") |
| Str.StartsEndsEdgeCases | src/Str.php:51-72 | every string starts and ends with the default ""; nothing longer than the string is a prefix or suffix |
| Str.StartWith | src/Str.php:83-94 | the result starts with the prefix; an input that already does is returned unchanged; any other input gets the prefix prepended |
| Str.StartWithIdempotent | src/Str.php:83-94 | applying startWith twice is the same as applying it once |
| Str.EndWith | src/Str.php:105-116 | the result ends with the suffix; an input that already does is returned unchanged; any other input gets the suffix appended |
| Str.EndWithIdempotent | src/Str.php:105-116 | applying endWith twice is the same as applying it once |
| Str.Lowercase | src/Str.php:129-132 | on ASCII input, every upper-case letter becomes its lower-case letter and every other byte is kept; the length is kept |
| Ascii.LowerFixpoint | src/Str.php:131 | lower-casing changes a string exactly when it holds an upper-case letter, and is idempotent |
| WordSplit.Words | src/Str.php:177 | the words (maximal letter-and-digit runs) of a string are non-empty runs of letters and digits |
| WordSplit.ReplaceForm | src/Str.php:177 | replacing each non-alphanumeric run by one byte gives the words joined by that byte, with at most one byte more at each end |
| WordSplit.ReplaceThenTrim | src/Str.php:177-179 | replacing non-alphanumeric runs by a byte and then trimming that byte gives exactly the words joined by it |
| WordSplit.LowerJoin | src/Str.php:179 | strtolower of joined words is the lower-cased words joined |
| WordSplit.UcWordsJoin | src/Str.php:179 | ucwords of space-joined words upper-cases the first byte of every word (a word that starts with a digit is left as it is) and changes nothing else |
| WordSplit.RemoveJoin | src/Str.php:181 | removing the separator from joined words concatenates the words |
| Str.CamelCaseWords | src/Str.php:172-183 | camelCase is the first word lower-cased followed by the later words lower-cased with their first byte upper-cased, with nothing between them |
| WordSplit.ConcatWords | src/Str.php:177 | the words of a string, run together, are exactly its letters and digits in order |
| WordSplit.NoWords | src/Str.php:177 | a string has no word exactly when it has no letter or digit |
| Str.CamelCaseShape | src/Str.php:172-183 | camelCase output holds only letters and digits and does not start with an upper-case letter; it is empty exactly when the input has no letter or digit; up to case it is the input's letters and digits in order |
| StrExamples.CamelCaseOfFour | src/Str.php:172-183 | four lower-case words with any single separators between them become the first word followed by the others with their first byte upper-cased |
| StrExamples.CamelCaseOfTwo | src/Str.php:172-183 | two words with one separator between them become the first word lower-cased followed by the second lower-cased with its first byte upper-cased |
| StrExamples.CamelCaseDigitWord | src/Str.php:179-181 | ucwords upper-cases only the first byte, so "a 1b" becomes "a1b" and the letter after the digit stays lower-case |
| StrExamples.CamelCaseExample | src/Str.php:172-183 | "my_variable-name 1" becomes "myVariableName1" |
| Str.ReplacedAscii | src/Str.php:199-202 | after the replacement by an ASCII separator the string handed to iconv is pure ASCII |
| WordSplit.SqueezeNoRuns | src/Str.php:208 | collapsing runs of the separator changes nothing when no two separators are adjacent |
| Str.SlugSteps | src/Str.php:199-208 | replacement, transliteration, trim and collapse together give the words of the input joined by one separator |
| Str.SlugCaseWords | src/Str.php:195-218 | the slug equals the input's words, lower-cased when the flag is set, joined by the separator |
| Str.SlugCaseLetters | src/Str.php:195-218 | the slug is empty exactly when the input has no letter or digit; without its separators it is the input's letters and digits, lower-cased when asked |
| Str.SlugCaseShape | src/Str.php:195-218 | slug characters are letters, digits or the separator; no separator at either end or twice in a row; empty exactly when the input has no letter or digit; its words are the input's words (lower-cased only when asked); without separators it is the input's letters and digits; no upper-case letter when lower-casing |
| Str.SlugCaseIdempotent | src/Str.php:195-218 | converting a converted string again changes nothing |
| WordSplit.WordsOfJoin | src/Str.php:195-218 | splitting joined words into words gives back the words |
| Str.KebabCaseShape | src/Str.php:195-218 | kebabCase joins the input's words with '-', with no '-' at either end or twice in a row, keeping case unless asked |
| Str.KebabCaseIdempotent | src/Str.php:195-218 | kebabCase applied twice equals kebabCase applied once |
| StrExamples.KebabCaseExample | src/Str.php:195-218 | "Hello, World!" becomes "Hello-World" by default and "hello-world" when lower-casing |
| Str.SnakeCaseShape | src/Str.php:230-253 | snakeCase joins the input's words with '_', with no '_' at either end or twice in a row, lower-casing unless told not to |
| Str.SnakeCaseIdempotent | src/Str.php:230-253 | snakeCase applied twice equals snakeCase applied once |
| StrExamples.SnakeCaseExample | src/Str.php:230-253 | "Hello, World!" becomes "hello_world" by default |
| StrExamples.NonAsciiLetterDropped | src/Str.php:195-218 | the UTF-8 bytes of "é" in "Café" are replaced before iconv runs, so kebabCase gives "Caf" |
| StrExamples.SlugCaseOfTwo | src/Str.php:195-253 | two words with separators around them become the two words joined by the separator, lower-cased when asked |
| Str.PoolAllowed | src/Str.php:271-296 | each type's pool holds exactly the characters its class allows; any unknown type allows letters, digits and the special characters |
| Str.PoolSizes | src/Str.php:271-300 | the pools hold 9, 52, 10, 71 and 100 characters, and an unknown type gets the full pool |
| Str.PoolHasNoQuotes | src/Str.php:274 | no pool holds a single quote, a double quote or a backtick |
| Str.Random | src/Str.php:268-310 | the result has max(length, 0) characters, the i-th being the pool character at the i-th draw, each allowed by the type |
| Str.PicksReachAllowed | src/Str.php:298-308 | every string whose characters the type allows is produced by some draws |
| Bits.BitOrDisjoint | src/Str.php:324-325 | or-ing a value below 2^k into a multiple of 2^k adds them |
| Str.UuidBits | src/Str.php:324-325 | the version bits 0x4000 and variant bits 0x8000 are added to the drawn values, and all eight values stay below 0x10000 |
| Bits.FormatHex4RoundTrip | src/Str.php:321 | %04x of a 16-bit value is four lower-case hexadecimal digits whose value is that number |
| Str.UuidGroups | src/Str.php:321-327 | the UUID string is 36 characters: the eight four-digit groups at their offsets with hyphens at 8, 13, 18 and 23 |
| Str.UuidGroupValues | src/Str.php:321-327 | every group of the UUID string reads back as the value printed there |
| Str.UuidRoundTrip | src/Str.php:318-329 | parsing the UUID string gives back exactly the eight draws |
| Str.UuidShape | src/Str.php:318-329 | 36 characters, hyphens exactly at 8, 13, 18 and 23, lower-case hexadecimal digits elsewhere, '4' at 14 and one of 8, 9, a, b at 19 |

## Left out

- Str.Lowercase: modelled on ASCII input only. mb_convert_case's Unicode case mapping and its encoding parameter are not modelled. Every string Str itself passes to it is ASCII.
- uppercase and titleCase: not modelled. They are Unicode case mappings done by mb_convert_case.
- iconv transliteration: modelled only as the identity on ASCII input (`Php.TransliterateAscii`). That is the only input the converters give it.
- Str.Random: does not model the distribution of random_int. The draws are a parameter, one per character, each within the pool. So every draw succeeds: the exception random_int throws when no source of randomness is available (src/Str.php:304) is not modelled.
- Str.Uuid: does not model the distribution of mt_rand. The eight draws are a parameter, each within the range uuid() asks for.
- Bytes outside ASCII letters and digits are all treated alike. The regex has no `u` flag, so it works byte by byte and classes every other byte as non-alphanumeric. No UTF-8 decoding is modelled.
- PHP 7's strpos, which returned false for an empty needle, is not modelled. The model follows PHP 8.
