/** A reference definition for the case converters of Str.php: the words of
    a string are its maximal runs of ASCII letters and digits, in order.
    The lemmas here say what each PHP step of the converters does to a
    string once it is written as words joined by one separator byte. */
module WordSplit {
  import opened Ascii
  import opened Php

  predicate IsWord(w: string) { |w| > 0 && AllAlnum(w) }

  predicate IsWordList(ws: seq<string>) { forall i :: 0 <= i < |ws| ==> IsWord(ws[i]) }

  /** The length of the longest prefix of `s` made of letters and digits. */
  function WordLength(s: string): (n: nat)
    ensures n <= |s|
    ensures forall i :: 0 <= i < n ==> IsAlnum(s[i])
    ensures n == |s| || !IsAlnum(s[n])
    ensures s != [] && IsAlnum(s[0]) ==> n > 0
  {
    if s == [] || !IsAlnum(s[0]) then 0 else 1 + WordLength(s[1..])
  }

  /** The maximal runs of letters and digits of `s`, left to right. */
  function Words(s: string): (ws: seq<string>)
    ensures IsWordList(ws)
    ensures s != [] && IsAlnum(s[0]) ==> ws != []
    decreases |s|
  {
    if s == [] then []
    else if IsAlnum(s[0]) then
      var n := WordLength(s);
      [s[..n]] + Words(s[n..])
    else Words(s[GapLength(s)..])
  }

  /** implode(sep, ws) for a one-byte glue. */
  function Join(ws: seq<string>, sep: char): string
  {
    if |ws| == 0 then []
    else if |ws| == 1 then ws[0]
    else ws[0] + [sep] + Join(ws[1..], sep)
  }

  function Concat(ws: seq<string>): string
  {
    if ws == [] then [] else ws[0] + Concat(ws[1..])
  }

  /** The letters and digits of `s`, in order, with every other byte dropped. */
  function AlnumOf(s: string): (r: string)
    ensures AllAlnum(r)
    ensures |r| <= |s|
  {
    if s == [] then []
    else (if IsAlnum(s[0]) then [s[0]] else []) + AlnumOf(s[1..])
  }

  lemma ConcatCons(w: string, ws: seq<string>)
    ensures Concat([w] + ws) == w + Concat(ws)
  {
    assert ([w] + ws)[1..] == ws;
  }

  lemma {:induction false} AlnumOfAppend(a: string, b: string)
    ensures AlnumOf(a + b) == AlnumOf(a) + AlnumOf(b)
    decreases |a|
  {
    if a != [] {
      AlnumOfAppend(a[1..], b);
      assert (a + b)[0] == a[0];
      assert (a + b)[1..] == a[1..] + b;
      var h := if IsAlnum(a[0]) then [a[0]] else [];
      assert h + (AlnumOf(a[1..]) + AlnumOf(b)) == (h + AlnumOf(a[1..])) + AlnumOf(b);
    } else {
      assert a + b == b;
    }
  }

  lemma {:induction false} AlnumOfWord(w: string)
    requires AllAlnum(w)
    ensures AlnumOf(w) == w
    decreases |w|
  {
    if w != [] {
      AlnumOfWord(w[1..]);
    }
  }

  /** A leading gap holds no letter or digit. */
  lemma {:induction false} AlnumOfGap(s: string)
    ensures AlnumOf(s) == AlnumOf(s[GapLength(s)..])
    decreases |s|
  {
    if s != [] && !IsAlnum(s[0]) {
      var t := s[1..];
      AlnumOfGap(t);
      assert s[GapLength(s)..] == t[GapLength(t)..];
    }
  }

  /** The words of `s`, run together, are exactly its letters and digits. */
  lemma {:induction false} ConcatWords(s: string)
    ensures Concat(Words(s)) == AlnumOf(s)
    decreases |s|
  {
    if s != [] {
      if IsAlnum(s[0]) {
        var n := WordLength(s);
        ConcatWords(s[n..]);
        ConcatCons(s[..n], Words(s[n..]));
        AlnumOfWord(s[..n]);
        AlnumOfAppend(s[..n], s[n..]);
        assert s[..n] + s[n..] == s;
      } else {
        ConcatWords(s[GapLength(s)..]);
        AlnumOfGap(s);
      }
    }
  }

  /** A string has no word exactly when it has no letter or digit. */
  lemma NoWords(s: string)
    ensures Words(s) == [] <==> AlnumOf(s) == []
  {
    ConcatWords(s);
    var ws := Words(s);
    if ws != [] {
      assert IsWord(ws[0]);
      ConcatCons(ws[0], ws[1..]);
      assert [ws[0]] + ws[1..] == ws;
    }
  }

  function LowerEach(ws: seq<string>): (r: seq<string>)
    ensures |r| == |ws|
    ensures forall i :: 0 <= i < |ws| ==> r[i] == Lower(ws[i])
  {
    seq(|ws|, i requires 0 <= i < |ws| => Lower(ws[i]))
  }

  function UcFirstEach(ws: seq<string>): (r: seq<string>)
    ensures |r| == |ws|
    ensures forall i :: 0 <= i < |ws| ==> r[i] == UcFirst(ws[i])
  {
    seq(|ws|, i requires 0 <= i < |ws| => UcFirst(ws[i]))
  }

  lemma EachKeepsWords(ws: seq<string>)
    requires IsWordList(ws)
    ensures IsWordList(LowerEach(ws)) && IsWordList(UcFirstEach(ws))
  {
  }

  /** Lower-casing each word and then running them together is
      lower-casing the run-together words. */
  lemma {:induction false} ConcatLowerEach(ws: seq<string>)
    ensures Concat(LowerEach(ws)) == Lower(Concat(ws))
  {
    if ws != [] {
      ConcatLowerEach(ws[1..]);
      assert LowerEach(ws)[1..] == LowerEach(ws[1..]);
      LowerAppend(ws[0], Concat(ws[1..]));
    }
  }

  lemma LowerEachIdempotent(ws: seq<string>)
    ensures LowerEach(LowerEach(ws)) == LowerEach(ws)
  {
    forall i | 0 <= i < |ws| ensures Lower(Lower(ws[i])) == Lower(ws[i]) {
      LowerFixpoint(ws[i]);
    }
  }

  /** Joining words gives letters and digits with single separators strictly
      inside: never at either end, never two in a row. */
  lemma {:induction false} JoinShape(ws: seq<string>, sep: char)
    requires IsWordList(ws) && !IsAlnum(sep)
    ensures var j := Join(ws, sep);
      && (j == [] <==> ws == [])
      && (forall i :: 0 <= i < |j| ==> IsAlnum(j[i]) || j[i] == sep)
      && (j != [] ==> IsAlnum(j[0]) && IsAlnum(j[|j| - 1]))
      && NoRepeat(j, sep)
  {
    if |ws| >= 2 {
      JoinShape(ws[1..], sep);
      var w, rest := ws[0], Join(ws[1..], sep);
      var j := Join(ws, sep);
      assert j == w + [sep] + rest;
      assert IsWord(w);
      forall i, k | 0 <= i && k == i + 1 && k < |j| ensures !(j[i] == sep && j[k] == sep) {
        if i < |w| {
          assert j[i] == w[i];
        } else if i == |w| {
          assert j[k] == rest[0];
        } else {
          assert j[i] == rest[i - |w| - 1] && j[k] == rest[k - |w| - 1];
        }
      }
    } else if |ws| == 1 {
      assert IsWord(ws[0]);
    }
  }

  /** The regex replacement copies a leading word unchanged. */
  lemma {:induction false} ReplaceSplitsAtWord(s: string, rep: char)
    ensures var n := WordLength(s);
      ReplaceNonAlnumRuns(s, rep) == s[..n] + ReplaceNonAlnumRuns(s[n..], rep)
    decreases |s|
  {
    var n := WordLength(s);
    if s != [] && IsAlnum(s[0]) {
      var s' := s[1..];
      var n' := WordLength(s');
      ReplaceSplitsAtWord(s', rep);
      assert ReplaceNonAlnumRuns(s, rep) == [s[0]] + ReplaceNonAlnumRuns(s', rep);
      assert n == 1 + n';
      assert s[..n] == [s[0]] + s'[..n'];
      assert s[n..] == s'[n'..];
    } else {
      assert n == 0 && s[..0] == [] && s[0..] == s;
    }
  }

  lemma JoinCons(w: string, ws: seq<string>, sep: char)
    requires ws != []
    ensures Join([w] + ws, sep) == w + [sep] + Join(ws, sep)
  {
  }

  /** A leading gap becomes one separator and holds no word. */
  lemma SkipGap(s: string, rep: char)
    requires s != [] && !IsAlnum(s[0])
    ensures var d := s[GapLength(s)..];
      && ReplaceNonAlnumRuns(s, rep) == [rep] + ReplaceNonAlnumRuns(d, rep)
      && Words(s) == Words(d)
  {
  }

  /** On an input that starts with a letter or digit, the regex replacement
      yields the words joined by `rep`, with at most one trailing `rep`. */
  lemma {:induction false} ReplaceShape(s: string, rep: char)
    requires s == [] || IsAlnum(s[0])
    ensures ReplaceNonAlnumRuns(s, rep) == Join(Words(s), rep)
         || ReplaceNonAlnumRuns(s, rep) == Join(Words(s), rep) + [rep]
    decreases |s|
  {
    var r := ReplaceNonAlnumRuns(s, rep);
    if s != [] {
      var n := WordLength(s);
      var w, rest := s[..n], s[n..];
      ReplaceSplitsAtWord(s, rep);
      assert r == w + ReplaceNonAlnumRuns(rest, rep);
      assert Words(s) == [w] + Words(rest);
      if rest == [] {
        assert Words(s) == [w] && r == w;
      } else {
        assert !IsAlnum(rest[0]);
        var d := rest[GapLength(rest)..];
        SkipGap(rest, rep);
        assert r == w + [rep] + ReplaceNonAlnumRuns(d, rep);
        if d == [] {
          assert Words(s) == [w] && r == w + [rep];
        } else {
          ReplaceShape(d, rep);
          JoinCons(w, Words(d), rep);
          assert Join(Words(s), rep) == w + [rep] + Join(Words(d), rep);
          if ReplaceNonAlnumRuns(d, rep) == Join(Words(d), rep) {
            assert r == Join(Words(s), rep);
          } else {
            assert r == Join(Words(s), rep) + [rep];
          }
        }
      }
    } else {
      assert r == [] && Words(s) == [];
    }
  }

  lemma TrimLeftAround(j: string, c: char, chars: set<char>, lead: bool, trail: bool)
    requires c in chars
    requires j == [] || j[0] !in chars
    ensures var t := if trail then [c] else [];
      TrimLeft((if lead then [c] else []) + j + t, chars) == if j == [] then [] else j + t
  {
  }

  lemma TrimRightAround(j: string, c: char, chars: set<char>, trail: bool)
    requires c in chars
    requires j == [] || j[|j| - 1] !in chars
    ensures TrimRight(j + (if trail then [c] else []), chars) == j
  {
  }

  /** Trimming a separator (or none) from each end of a joined string. */
  lemma TrimAround(j: string, c: char, chars: set<char>, lead: bool, trail: bool)
    requires c in chars
    requires j == [] || (j[0] !in chars && j[|j| - 1] !in chars)
    ensures Trim((if lead then [c] else []) + j + (if trail then [c] else []), chars) == j
  {
    TrimLeftAround(j, c, chars, lead, trail);
    if j == [] {
      assert TrimRight([], chars) == [];
    } else {
      TrimRightAround(j, c, chars, trail);
    }
  }

  /** The regex replacement yields the words joined by `rep`, with at most
      one `rep` before and one after. */
  lemma ReplaceForm(s: string, rep: char) returns (lead: bool, trail: bool)
    ensures ReplaceNonAlnumRuns(s, rep)
      == (if lead then [rep] else []) + Join(Words(s), rep) + (if trail then [rep] else [])
  {
    lead := s != [] && !IsAlnum(s[0]);
    var d := if lead then s[GapLength(s)..] else s;
    if lead {
      SkipGap(s, rep);
    }
    var j := Join(Words(d), rep);
    ReplaceShape(d, rep);
    trail := ReplaceNonAlnumRuns(d, rep) != j;
    if !lead {
      assert [] + j == j;
    }
  }

  /** preg_replace('/[^a-z0-9]+/i', rep) followed by a trim of a set that
      holds `rep` and no letter or digit yields the words joined by `rep`. */
  lemma ReplaceThenTrim(s: string, rep: char, chars: set<char>)
    requires rep in chars
    requires forall ch :: ch in chars ==> !IsAlnum(ch)
    ensures Trim(ReplaceNonAlnumRuns(s, rep), chars) == Join(Words(s), rep)
  {
    var lead, trail := ReplaceForm(s, rep);
    var j := Join(Words(s), rep);
    JoinShape(Words(s), rep);
    assert j == [] || (j[0] !in chars && j[|j| - 1] !in chars);
    TrimAround(j, rep, chars, lead, trail);
  }

  /** Squeezing runs of `c` changes nothing where there are none. */
  lemma {:induction false} SqueezeNoRuns(s: string, c: char)
    requires NoRepeat(s, c)
    ensures Squeeze(s, c) == s
    decreases |s|
  {
    if s != [] {
      SqueezeNoRuns(s[1..], c);
      if s[0] == c {
        assert DropLeading(s[1..], c) == s[1..];
      }
    }
  }

  lemma {:induction false} LowerJoin(ws: seq<string>, sep: char)
    requires !IsUpper(sep)
    ensures Lower(Join(ws, sep)) == Join(LowerEach(ws), sep)
  {
    if |ws| >= 2 {
      LowerJoin(ws[1..], sep);
      assert LowerEach(ws)[1..] == LowerEach(ws[1..]);
      LowerAppend(ws[0] + [sep], Join(ws[1..], sep));
      LowerAppend(ws[0], [sep]);
    }
  }

  /** ucwords treats a word with no delimiter inside as ucfirst does. */
  lemma UcWordsOneWord(w: string, delims: set<char>)
    requires forall i :: 0 <= i < |w| ==> w[i] !in delims
    ensures UcWords(w, delims) == UcFirst(w)
  {
  }

  lemma UcWordsSplit(a: string, sep: char, b: string, delims: set<char>)
    requires sep in delims && !IsLower(sep)
    ensures UcWords(a + [sep] + b, delims) == UcWords(a, delims) + [sep] + UcWords(b, delims)
  {
  }

  lemma {:induction false} UcWordsJoin(ws: seq<string>, sep: char, delims: set<char>)
    requires IsWordList(ws)
    requires sep in delims && !IsLower(sep)
    requires forall ch :: ch in delims ==> !IsAlnum(ch)
    ensures UcWords(Join(ws, sep), delims) == Join(UcFirstEach(ws), sep)
  {
    if |ws| == 1 {
      assert IsWord(ws[0]);
      UcWordsOneWord(ws[0], delims);
    } else if |ws| >= 2 {
      assert IsWord(ws[0]);
      UcWordsJoin(ws[1..], sep, delims);
      UcWordsOneWord(ws[0], delims);
      UcWordsSplit(ws[0], sep, Join(ws[1..], sep), delims);
      assert UcFirstEach(ws)[1..] == UcFirstEach(ws[1..]);
    }
  }

  lemma {:induction false} RemoveAppend(a: string, b: string, c: char)
    ensures RemoveChar(a + b, c) == RemoveChar(a, c) + RemoveChar(b, c)
    decreases |a|
  {
    if a != [] {
      RemoveAppend(a[1..], b, c);
      assert (a + b)[0] == a[0];
      assert (a + b)[1..] == a[1..] + b;
      var head := if a[0] == c then [] else [a[0]];
      calc {
        RemoveChar(a + b, c);
        head + RemoveChar(a[1..] + b, c);
        head + (RemoveChar(a[1..], c) + RemoveChar(b, c));
        (head + RemoveChar(a[1..], c)) + RemoveChar(b, c);
      }
    } else {
      assert a + b == b;
    }
  }

  lemma {:induction false} RemoveAbsent(w: string, c: char)
    requires forall i :: 0 <= i < |w| ==> w[i] != c
    ensures RemoveChar(w, c) == w
    decreases |w|
  {
    if w != [] {
      RemoveAbsent(w[1..], c);
    }
  }

  /** Deleting the separator from joined words concatenates the words. */
  lemma {:induction false} RemoveJoin(ws: seq<string>, sep: char)
    requires IsWordList(ws) && !IsAlnum(sep)
    ensures RemoveChar(Join(ws, sep), sep) == Concat(ws)
  {
    if |ws| == 1 {
      assert IsWord(ws[0]);
      RemoveAbsent(ws[0], sep);
      assert Concat(ws) == ws[0] + Concat([]);
    } else if |ws| >= 2 {
      assert IsWord(ws[0]);
      RemoveJoin(ws[1..], sep);
      RemoveAbsent(ws[0], sep);
      RemoveAppend(ws[0] + [sep], Join(ws[1..], sep), sep);
      RemoveAppend(ws[0], [sep], sep);
      assert RemoveChar([sep], sep) == [];
    }
  }

  lemma {:induction false} WordLengthOfWord(w: string, t: string)
    requires AllAlnum(w)
    requires t == [] || !IsAlnum(t[0])
    ensures WordLength(w + t) == |w|
    decreases |w|
  {
    if w != [] {
      WordLengthOfWord(w[1..], t);
      assert (w + t)[1..] == w[1..] + t;
    }
  }

  lemma JoinStartsWithWord(ws: seq<string>, sep: char)
    requires IsWordList(ws) && ws != []
    ensures Join(ws, sep) != [] && IsAlnum(Join(ws, sep)[0])
  {
  }

  /** A word followed by a gap (or nothing) is the first word. */
  lemma WordsOfWordThen(w: string, t: string)
    requires IsWord(w)
    requires t == [] || !IsAlnum(t[0])
    ensures Words(w + t) == [w] + Words(t)
  {
    WordLengthOfWord(w, t);
    var s := w + t;
    assert s[..|w|] == w && s[|w|..] == t;
  }

  lemma WordsOfWord(w: string)
    requires IsWord(w)
    ensures Words(w) == [w]
  {
    WordsOfWordThen(w, []);
    assert w + [] == w;
  }

  lemma {:induction false} GapLengthOfGap(g: string, rest: string)
    requires forall i :: 0 <= i < |g| ==> !IsAlnum(g[i])
    requires rest == [] || IsAlnum(rest[0])
    ensures GapLength(g + rest) == |g|
    decreases |g|
  {
    if g != [] {
      GapLengthOfGap(g[1..], rest);
      assert (g + rest)[1..] == g[1..] + rest;
    } else {
      assert g + rest == rest;
    }
  }

  /** A word, a non-empty gap, then the rest: the word comes first and the
      gap holds no word. */
  lemma WordsCons(w: string, gap: string, rest: string)
    requires IsWord(w)
    requires gap != [] && forall i :: 0 <= i < |gap| ==> !IsAlnum(gap[i])
    requires rest == [] || IsAlnum(rest[0])
    ensures Words(w + gap + rest) == [w] + Words(rest)
  {
    var t := gap + rest;
    assert w + gap + rest == w + t;
    WordsOfWordThen(w, t);
    GapLengthOfGap(gap, rest);
    assert t[|gap|..] == rest;
  }

  lemma {:induction false} ConcatSnoc(ws: seq<string>, x: string)
    ensures Concat(ws + [x]) == Concat(ws) + x
  {
    if ws == [] {
      assert [] + [x] == [x];
      assert Concat([x]) == x + Concat([]);
    } else {
      ConcatSnoc(ws[1..], x);
      assert (ws + [x])[1..] == ws[1..] + [x];
    }
  }

  /** The words of joined words are those words: Join and Words are
      inverse on lists of non-empty words. */
  lemma {:induction false} WordsOfJoin(ws: seq<string>, sep: char)
    requires IsWordList(ws) && !IsAlnum(sep)
    ensures Words(Join(ws, sep)) == ws
  {
    if |ws| == 1 {
      WordsOfWord(ws[0]);
    } else if |ws| >= 2 {
      var rest := Join(ws[1..], sep);
      assert IsWord(ws[0]);
      JoinStartsWithWord(ws[1..], sep);
      WordsOfJoin(ws[1..], sep);
      assert Join(ws, sep) == ws[0] + [sep] + rest;
      WordsCons(ws[0], [sep], rest);
      assert ws == [ws[0]] + ws[1..];
    }
  }
}
