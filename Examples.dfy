/** Worked examples of the case converters on concrete strings. Each is
    an instance of a lemma about arbitrary words, so that the recursive
    definitions are never unfolded on a literal. */
module StrExamples {
  import opened Ascii
  import opened Php
  import opened WordSplit
  import opened Str

  lemma WordsPrepend(w: string, g: char, t: string)
    requires IsWord(w) && !IsAlnum(g)
    requires t != [] && IsAlnum(t[0])
    ensures Words(w + [g] + t) == [w] + Words(t)
  {
    WordsCons(w, [g], t);
  }

  lemma WordsOfTwo(c: string, g: char, d: string)
    requires IsWord(c) && IsWord(d) && !IsAlnum(g)
    ensures Words(c + [g] + d) == [c, d]
  {
    WordsOfWord(d);
    WordsPrepend(c, g, d);
  }

  lemma WordsOfThree(b: string, g: char, c: string, h: char, d: string)
    requires IsWord(b) && IsWord(c) && IsWord(d) && !IsAlnum(g) && !IsAlnum(h)
    ensures Words(b + [g] + (c + [h] + d)) == [b, c, d]
  {
    WordsOfTwo(c, h, d);
    WordsPrepend(b, g, c + [h] + d);
  }

  lemma WordsOfFour(a: string, f: char, b: string, g: char, c: string, h: char, d: string)
    requires IsWord(a) && IsWord(b) && IsWord(c) && IsWord(d)
    requires !IsAlnum(f) && !IsAlnum(g) && !IsAlnum(h)
    ensures Words(a + [f] + (b + [g] + (c + [h] + d))) == [a, b, c, d]
  {
    WordsOfThree(b, g, c, h, d);
    WordsPrepend(a, f, b + [g] + (c + [h] + d));
  }

  lemma ConcatThree(x: string, y: string, z: string)
    ensures Concat([x, y, z]) == x + (y + z)
  {
    assert [x, y, z][1..] == [y, z];
    assert [y, z][1..] == [z];
    assert Concat([z]) == z + Concat([]);
  }

  lemma CamelJoinFour(a: string, b: string, c: string, d: string)
    ensures CamelJoin([a, b, c, d]) ==
      Lower(a) + (UcFirst(Lower(b)) + (UcFirst(Lower(c)) + UcFirst(Lower(d))))
  {
    var ws := [a, b, c, d];
    var up := UcFirstEach(LowerEach(ws[1..]));
    assert up == [UcFirst(Lower(b)), UcFirst(Lower(c)), UcFirst(Lower(d))];
    ConcatThree(UcFirst(Lower(b)), UcFirst(Lower(c)), UcFirst(Lower(d)));
  }

  lemma CapitalisedExample()
    ensures UcFirst("variable") == "Variable"
    ensures UcFirst("name") == "Name"
    ensures UcFirst("1") == "1"
  {
  }

  /** Lower-case words separated by single non-alphanumeric bytes: the
      first word stays as it is and the others get their first byte
      upper-cased. */
  lemma CamelCaseOfFour(a: string, f: char, b: string, g: char, c: string, h: char, d: string)
    requires IsWord(a) && IsWord(b) && IsWord(c) && IsWord(d)
    requires NoUpper(a) && NoUpper(b) && NoUpper(c) && NoUpper(d)
    requires !IsAlnum(f) && !IsAlnum(g) && !IsAlnum(h)
    ensures CamelCase(a + [f] + (b + [g] + (c + [h] + d))) == a + (UcFirst(b) + (UcFirst(c) + UcFirst(d)))
  {
    var s := a + [f] + (b + [g] + (c + [h] + d));
    WordsOfFour(a, f, b, g, c, h, d);
    CamelCaseWords(s);
    CamelJoinFour(a, b, c, d);
    LowerFixpoint(a);
    LowerFixpoint(b);
    LowerFixpoint(c);
    LowerFixpoint(d);
  }

  lemma ExampleParts()
    ensures IsWord("my") && IsWord("variable") && IsWord("name") && IsWord("1")
    ensures NoUpper("my") && NoUpper("variable") && NoUpper("name") && NoUpper("1")
  {
  }

  lemma ExampleSpelling()
    ensures "my_variable-name 1" == "my" + ['_'] + ("variable" + ['-'] + ("name" + [' '] + "1"))
    ensures "my" + ("Variable" + ("Name" + "1")) == "myVariableName1"
  {
  }

  /** A worked example for camelCase. */
  lemma CamelCaseExample()
    ensures CamelCase("my_variable-name 1") == "myVariableName1"
  {
    ExampleParts();
    CamelCaseOfFour("my", '_', "variable", '-', "name", ' ', "1");
    CapitalisedExample();
    ExampleSpelling();
  }

  lemma DigitWordParts()
    ensures IsWord("a") && IsWord("1b")
    ensures Lower("a") == "a" && Lower("1b") == "1b"
    ensures UcFirst("1b") == "1b"
    ensures "a" + [' '] + "1b" == "a 1b"
    ensures "a" + "1b" == "a1b"
  {
  }

  /** Two words with one non-alphanumeric byte between them. */
  lemma CamelCaseOfTwo(a: string, g: char, b: string)
    requires IsWord(a) && IsWord(b) && !IsAlnum(g)
    ensures CamelCase(a + [g] + b) == Lower(a) + UcFirst(Lower(b))
  {
    WordsOfTwo(a, g, b);
    CamelCaseWords(a + [g] + b);
    assert UcFirstEach(LowerEach([b])) == [UcFirst(Lower(b))];
    assert Concat([UcFirst(Lower(b))]) == UcFirst(Lower(b)) + Concat([]);
  }

  /** ucwords upper-cases the first byte of a word, so a word that starts
      with a digit keeps its letters in lower case. */
  lemma CamelCaseDigitWord()
    ensures CamelCase("a 1b") == "a1b"
  {
    DigitWordParts();
    CamelCaseOfTwo("a", ' ', "1b");
  }

  lemma WordsOfTwoGapped(a: string, g: string, b: string, t: string)
    requires IsWord(a) && IsWord(b)
    requires g != [] && forall i :: 0 <= i < |g| ==> !IsAlnum(g[i])
    requires t != [] && forall i :: 0 <= i < |t| ==> !IsAlnum(t[i])
    ensures Words(a + g + (b + t)) == [a, b]
  {
    assert b + t + [] == b + t;
    WordsCons(b, t, []);
    WordsCons(a, g, b + t);
  }

  lemma JoinTwo(a: string, b: string, sep: char)
    ensures Join([a, b], sep) == a + [sep] + b
  {
  }

  /** Two words with non-alphanumeric bytes between and after them. */
  lemma SlugCaseOfTwo(a: string, g: string, b: string, t: string, sep: char, lowercase: bool)
    requires IsWord(a) && IsWord(b)
    requires g != [] && forall i :: 0 <= i < |g| ==> !IsAlnum(g[i])
    requires t != [] && forall i :: 0 <= i < |t| ==> !IsAlnum(t[i])
    requires IsAsciiChar(sep) && !IsAlnum(sep)
    ensures SlugCase(a + g + (b + t), sep, lowercase) ==
      if lowercase then Lower(a) + [sep] + Lower(b) else a + [sep] + b
  {
    var s := a + g + (b + t);
    WordsOfTwoGapped(a, g, b, t);
    SlugCaseWords(s, sep, lowercase);
    assert LowerEach([a, b]) == [Lower(a), Lower(b)];
    JoinTwo(a, b, sep);
    JoinTwo(Lower(a), Lower(b), sep);
  }

  lemma HelloWorldParts()
    ensures IsWord("Hello") && IsWord("World")
    ensures forall i :: 0 <= i < |", "| ==> !IsAlnum(", "[i])
    ensures forall i :: 0 <= i < |"!"| ==> !IsAlnum("!"[i])
    ensures Lower("Hello") == "hello" && Lower("World") == "world"
  {
  }

  lemma HelloWorldSpelling()
    ensures "Hello, World!" == "Hello" + ", " + ("World" + "!")
    ensures "hello" + ['_'] + "world" == "hello_world"
    ensures "hello" + ['-'] + "world" == "hello-world"
    ensures "Hello" + ['-'] + "World" == "Hello-World"
  {
  }

  /** snakeCase lower-cases by default. */
  lemma SnakeCaseExample()
    ensures SnakeCase("Hello, World!") == "hello_world"
  {
    HelloWorldParts();
    SlugCaseOfTwo("Hello", ", ", "World", "!", '_', true);
    HelloWorldSpelling();
  }

  /** kebabCase keeps the case by default. */
  lemma KebabCaseExample()
    ensures KebabCase("Hello, World!") == "Hello-World"
    ensures KebabCase("Hello, World!", true) == "hello-world"
  {
    HelloWorldParts();
    SlugCaseOfTwo("Hello", ", ", "World", "!", '-', false);
    SlugCaseOfTwo("Hello", ", ", "World", "!", '-', true);
    HelloWorldSpelling();
  }

  /** One word followed by bytes that are not ASCII letters or digits. */
  lemma SlugCaseOfOne(a: string, t: string, sep: char, lowercase: bool)
    requires IsWord(a)
    requires t != [] && forall i :: 0 <= i < |t| ==> !IsAlnum(t[i])
    requires IsAsciiChar(sep) && !IsAlnum(sep)
    ensures SlugCase(a + t, sep, lowercase) == if lowercase then Lower(a) else a
  {
    assert a + t + [] == a + t;
    WordsCons(a, t, []);
    SlugCaseWords(a + t, sep, lowercase);
    assert LowerEach([a]) == [Lower(a)];
  }

  lemma CafeParts()
    ensures IsWord("Caf")
    ensures forall i :: 0 <= i < |"\U{C3}\U{A9}"| ==> !IsAlnum("\U{C3}\U{A9}"[i])
    ensures "Caf\U{C3}\U{A9}" == "Caf" + "\U{C3}\U{A9}"
  {
  }

  /** The UTF-8 bytes of an accented letter (here the two bytes of "é") are
      replaced by the regex before iconv could transliterate them, so the
      letter is dropped rather than turned into "e". */
  lemma NonAsciiLetterDropped()
    ensures KebabCase("Caf\U{C3}\U{A9}") == "Caf"
  {
    CafeParts();
    SlugCaseOfOne("Caf", "\U{C3}\U{A9}", '-', false);
  }
}
