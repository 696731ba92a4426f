/** A declared ASCII word model of lodash's `lowerCase`, `startCase` and
    `snakeCase`. Each of them removes apostrophes, splits the string into words
    and joins the re-cased words: `lowerCase` with a space after lower-casing
    each word, `startCase` with a space after upper-casing each word's first
    letter, `snakeCase` with `_` after lower-casing each word. A word is a
    maximal run of ASCII letters and digits; every other character separates
    words. */
module Casing {
  import opened Base

  predicate IsWordChar(c: char)
  {
    IsUpper(c) || IsLower(c) || IsDigit(c)
  }

  predicate IsWord(w: string)
  {
    |w| > 0 && forall i | 0 <= i < |w| :: IsWordChar(w[i])
  }

  predicate IsApostrophe(c: char)
  {
    c == '\'' || c == '\U{2019}'
  }

  function ToLower(c: char): (d: char)
    ensures !IsUpper(d)
    ensures IsWordChar(c) <==> IsWordChar(d)
  {
    if IsUpper(c) then ((c as int) + 32) as char else c
  }

  function ToUpper(c: char): (d: char)
    ensures !IsLower(d)
    ensures IsWordChar(c) <==> IsWordChar(d)
  {
    if IsLower(c) then ((c as int) - 32) as char else c
  }

  function Lower(s: string): (r: string)
    ensures |r| == |s|
    ensures forall i | 0 <= i < |s| :: r[i] == ToLower(s[i])
  {
    seq(|s|, i requires 0 <= i < |s| => ToLower(s[i]))
  }

  function UpperFirst(s: string): (r: string)
    ensures |r| == |s|
    ensures |s| > 0 ==> r[0] == ToUpper(s[0]) && r[1..] == s[1..]
  {
    if |s| == 0 then s else [ToUpper(s[0])] + s[1..]
  }

  function RemoveApostrophes(s: string): (r: string)
    ensures forall i | 0 <= i < |r| :: !IsApostrophe(r[i])
  {
    if |s| == 0 then ""
    else if IsApostrophe(s[0]) then RemoveApostrophes(s[1..])
    else [s[0]] + RemoveApostrophes(s[1..])
  }

  /** Drops the separators in front of the first word. */
  function SkipSeparators(s: string): (r: string)
    ensures |r| <= |s| && r == s[|s| - |r|..]
    ensures |r| > 0 ==> IsWordChar(r[0])
  {
    if |s| > 0 && !IsWordChar(s[0]) then SkipSeparators(s[1..]) else s
  }

  /** The longest prefix made of word characters. */
  function WordPrefix(s: string): (r: string)
    ensures r <= s
    ensures forall i | 0 <= i < |r| :: IsWordChar(r[i])
    ensures |r| < |s| ==> !IsWordChar(s[|r|])
  {
    if |s| > 0 && IsWordChar(s[0]) then [s[0]] + WordPrefix(s[1..]) else ""
  }

  function Words(s: string): (ws: seq<string>)
    ensures forall i | 0 <= i < |ws| :: IsWord(ws[i])
    decreases |s|
  {
    var t := SkipSeparators(s);
    if |t| == 0 then []
    else
      var w := WordPrefix(t);
      [w] + Words(t[|w|..])
  }

  function LowerAll(ws: seq<string>): (r: seq<string>)
    ensures |r| == |ws|
    ensures forall i | 0 <= i < |ws| :: r[i] == Lower(ws[i])
  {
    seq(|ws|, i requires 0 <= i < |ws| => Lower(ws[i]))
  }

  function UpperFirstAll(ws: seq<string>): (r: seq<string>)
    ensures |r| == |ws|
    ensures forall i | 0 <= i < |ws| :: r[i] == UpperFirst(ws[i])
  {
    seq(|ws|, i requires 0 <= i < |ws| => UpperFirst(ws[i]))
  }

  /** lodash `lowerCase`. */
  function LowerCase(s: string): string
  {
    Join(LowerAll(Words(RemoveApostrophes(s))), " ")
  }

  /** lodash `startCase`. */
  function StartCase(s: string): string
  {
    Join(UpperFirstAll(Words(RemoveApostrophes(s))), " ")
  }

  /** lodash `snakeCase`. */
  function SnakeCase(s: string): string
  {
    Join(LowerAll(Words(RemoveApostrophes(s))), "_")
  }

  // ---------------------------------------------------------------------------
  // Splitting a joined list of words gives the words back.

  lemma {:induction false} RemoveApostrophesKeeps(s: string)
    requires forall i | 0 <= i < |s| :: !IsApostrophe(s[i])
    ensures RemoveApostrophes(s) == s
    decreases |s|
  {
    if |s| > 0 {
      RemoveApostrophesKeeps(s[1..]);
      assert [s[0]] + s[1..] == s;
    }
  }

  lemma {:induction false} WordPrefixOf(w: string, rest: string)
    requires forall i | 0 <= i < |w| :: IsWordChar(w[i])
    requires |rest| == 0 || !IsWordChar(rest[0])
    ensures WordPrefix(w + rest) == w
    decreases |w|
  {
    if |w| == 0 {
      assert w + rest == rest;
    } else {
      assert (w + rest)[1..] == w[1..] + rest;
      WordPrefixOf(w[1..], rest);
      assert [w[0]] + w[1..] == w;
    }
  }

  lemma {:induction false} SkipSeparatorsOf(sep: string, rest: string)
    requires forall i | 0 <= i < |sep| :: !IsWordChar(sep[i])
    ensures SkipSeparators(sep + rest) == SkipSeparators(rest)
    decreases |sep|
  {
    if |sep| == 0 {
      assert sep + rest == rest;
    } else {
      assert (sep + rest)[1..] == sep[1..] + rest;
      SkipSeparatorsOf(sep[1..], rest);
    }
  }

  lemma {:induction false} WordsOfWordThen(w: string, rest: string)
    requires IsWord(w)
    requires |rest| == 0 || !IsWordChar(rest[0])
    ensures Words(w + rest) == [w] + Words(rest)
  {
    var s := w + rest;
    assert SkipSeparators(s) == s;
    WordPrefixOf(w, rest);
    assert s[|w|..] == rest;
  }

  /** The word model reads a separator-joined list of words back as that list. */
  lemma {:induction false} WordsOfJoin(ws: seq<string>, sep: string)
    requires forall i | 0 <= i < |ws| :: IsWord(ws[i])
    requires |sep| > 0 && forall i | 0 <= i < |sep| :: !IsWordChar(sep[i])
    ensures Words(Join(ws, sep)) == ws
    decreases |ws|
  {
    if |ws| == 0 {
    } else if |ws| == 1 {
      assert ws[0] + "" == ws[0];
      WordsOfWordThen(ws[0], "");
    } else {
      WordsOfJoin(ws[1..], sep);
      WordsOfJoinCons(ws, sep);
    }
  }

  lemma {:induction false} WordsOfJoinCons(ws: seq<string>, sep: string)
    requires |ws| > 1 && IsWord(ws[0])
    requires |sep| > 0 && forall i | 0 <= i < |sep| :: !IsWordChar(sep[i])
    requires Words(Join(ws[1..], sep)) == ws[1..]
    ensures Words(Join(ws, sep)) == ws
  {
    WordsOfJoinStep(ws[0], ws[1..], sep);
    HeadTail(ws);
  }

  lemma {:induction false} WordsOfJoinStep(w: string, tail: seq<string>, sep: string)
    requires IsWord(w) && |tail| > 0
    requires |sep| > 0 && forall i | 0 <= i < |sep| :: !IsWordChar(sep[i])
    ensures Words(w + sep + Join(tail, sep)) == [w] + Words(Join(tail, sep))
  {
    var rest := Join(tail, sep);
    var after := sep + rest;
    assert w + sep + rest == w + after;
    assert after[0] == sep[0];
    WordsOfWordThen(w, after);
    WordsAfterSeparators(sep, rest);
  }

  lemma {:induction false} WordsAfterSeparators(sep: string, rest: string)
    requires forall i | 0 <= i < |sep| :: !IsWordChar(sep[i])
    ensures Words(sep + rest) == Words(rest)
  {
    SkipSeparatorsOf(sep, rest);
  }

  /** A joined list of words contains no apostrophe. */
  lemma {:induction false} JoinedWordsHaveNoApostrophe(ws: seq<string>, sep: string)
    requires forall i | 0 <= i < |ws| :: IsWord(ws[i])
    requires forall i | 0 <= i < |sep| :: !IsApostrophe(sep[i])
    ensures RemoveApostrophes(Join(ws, sep)) == Join(ws, sep)
  {
    JoinKeeps(ws, sep, c => !IsApostrophe(c));
    RemoveApostrophesKeeps(Join(ws, sep));
  }

  /** `lowerCase` leaves exactly the input's words, lower-cased, for the next
      word split. */
  lemma {:induction false} WordsOfLowerCase(s: string)
    ensures Words(LowerCase(s)) == LowerAll(Words(RemoveApostrophes(s)))
    ensures RemoveApostrophes(LowerCase(s)) == LowerCase(s)
  {
    var ls := LowerAll(Words(RemoveApostrophes(s)));
    assert forall i | 0 <= i < |ls| :: IsWord(ls[i]);
    JoinedWordsHaveNoApostrophe(ls, " ");
    WordsOfJoin(ls, " ");
  }

  /** `snakeCase` output holds only lower-case letters, digits and `_`, so it
      never contains a path separator, a dash or a dot. */
  lemma {:induction false} SnakeCaseAlphabet(s: string)
    ensures forall i | 0 <= i < |SnakeCase(s)| ::
      IsLower(SnakeCase(s)[i]) || IsDigit(SnakeCase(s)[i]) || SnakeCase(s)[i] == '_'
  {
    var ls := LowerAll(Words(RemoveApostrophes(s)));
    assert forall i, k | 0 <= i < |ls| && 0 <= k < |ls[i]| :: IsWordChar(ls[i][k]) && !IsUpper(ls[i][k]);
    JoinKeeps(ls, "_", c => IsLower(c) || IsDigit(c) || c == '_');
  }
}
