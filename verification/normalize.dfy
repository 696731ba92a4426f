/** The Web Gallery of Art metadata normalisers: `title` is start case of lower
    case, `artist` first moves a leading "Last, First" surname behind the given
    names with the unanchored pattern `/(\w+), ?(.*)/` and then applies the same
    casing, and `date` and `technique` pass their input through. */
module Normalize {
  import opened Base
  import opened Casing

  // ---------------------------------------------------------------------------
  // title

  /** Lower-case a word, then upper-case its first character. */
  function Capitalize(w: string): (r: string)
    ensures |r| == |w|
  {
    UpperFirst(Lower(w))
  }

  function CapitalizeAll(ws: seq<string>): (r: seq<string>)
    ensures |r| == |ws|
    ensures forall i | 0 <= i < |ws| :: r[i] == Capitalize(ws[i])
  {
    seq(|ws|, i requires 0 <= i < |ws| => Capitalize(ws[i]))
  }

  /** A word whose first character is not a lower-case letter and whose other
      characters are not upper-case letters. */
  predicate IsCapitalized(w: string)
  {
    IsWord(w) && !IsLower(w[0]) && forall i | 1 <= i < |w| :: !IsUpper(w[i])
  }

  /** `title(t)`: `startCase(lowerCase(t))`. Its result is the input's words,
      each capitalised, joined by single spaces. */
  function Title(t: string): (r: string)
    ensures r == Join(CapitalizeAll(Words(RemoveApostrophes(t))), " ")
  {
    WordsOfLowerCase(t);
    var ws := Words(RemoveApostrophes(t));
    assert UpperFirstAll(LowerAll(ws)) == CapitalizeAll(ws);
    StartCase(LowerCase(t))
  }

  lemma {:induction false} CapitalizeShape(w: string)
    requires IsWord(w)
    ensures IsCapitalized(Capitalize(w))
  {
  }

  lemma {:induction false} CapitalizeKeepsCapitalized(w: string)
    requires IsCapitalized(w)
    ensures Capitalize(w) == w
  {
    var l := Lower(w);
    assert l[1..] == w[1..];
    assert ToUpper(l[0]) == w[0];
  }

  lemma {:induction false} CapitalizeIdempotent(w: string)
    requires IsWord(w)
    ensures Capitalize(Capitalize(w)) == Capitalize(w)
  {
    CapitalizeShape(w);
    CapitalizeKeepsCapitalized(Capitalize(w));
  }

  lemma {:induction false} CapitalizeLowerWord(w: string)
    requires |w| > 0 && forall i | 0 <= i < |w| :: !IsUpper(w[i])
    ensures Capitalize(w) == [ToUpper(w[0])] + w[1..]
  {
    assert Lower(w) == w;
  }

  /** The title is a list of capitalised words separated by single spaces: the
      word split of the result gives back exactly those words. */
  lemma {:induction false} TitleShape(t: string)
    ensures Title(t) == Join(Words(Title(t)), " ")
    ensures forall i | 0 <= i < |Words(Title(t))| :: IsCapitalized(Words(Title(t))[i])
    ensures |Words(Title(t))| == |Words(RemoveApostrophes(t))|
  {
    var cs := CapitalizeAll(Words(RemoveApostrophes(t)));
    forall i | 0 <= i < |cs|
      ensures IsCapitalized(cs[i])
    {
      CapitalizeShape(Words(RemoveApostrophes(t))[i]);
    }
    WordsOfJoin(cs, " ");
  }

  /** Normalising a title twice changes nothing more. */
  lemma {:induction false} TitleIdempotent(t: string)
    ensures Title(Title(t)) == Title(t)
  {
    var ws := Words(RemoveApostrophes(t));
    var cs := CapitalizeAll(ws);
    forall i | 0 <= i < |cs|
      ensures IsCapitalized(cs[i])
    {
      CapitalizeShape(ws[i]);
    }
    JoinedWordsHaveNoApostrophe(cs, " ");
    WordsOfJoin(cs, " ");
    forall i | 0 <= i < |cs|
      ensures Capitalize(cs[i]) == cs[i]
    {
      CapitalizeIdempotent(ws[i]);
    }
    assert CapitalizeAll(cs) == cs;
  }

  /** Title-casing a space-joined list of words capitalises each word. */
  lemma {:induction false} TitleOfWords(ws: seq<string>, s: string)
    requires forall i | 0 <= i < |ws| :: IsWord(ws[i])
    requires s == Join(ws, " ")
    ensures Title(s) == Join(CapitalizeAll(ws), " ")
  {
    assert RemoveApostrophes(s) == s by {
      JoinedWordsHaveNoApostrophe(ws, " ");
    }
    assert Words(s) == ws by {
      WordsOfJoin(ws, " ");
    }
  }

  lemma {:induction false} CapitalizeSentence(a: string, b: string, c: string, d: string)
    requires a == "this" && b == "is" && c == "a" && d == "test"
    ensures Join(CapitalizeAll([a, b, c, d]), " ") == "This Is A Test"
  {
    CapitalizeFirstPair(a, b);
    CapitalizeSecondPair(c, d);
    assert CapitalizeAll([a, b, c, d]) == ["This", "Is", "A", "Test"];
    JoinFour("This", "Is", "A", "Test", " ");
  }

  lemma {:induction false} CapitalizeFirstPair(a: string, b: string)
    requires a == "this" && b == "is"
    ensures Capitalize(a) == "This" && Capitalize(b) == "Is"
  {
    CapitalizeLowerWord(a);
    assert a[1..] == "his";
    CapitalizeLowerWord(b);
    assert b[1..] == "s";
  }

  lemma {:induction false} CapitalizeSecondPair(c: string, d: string)
    requires c == "a" && d == "test"
    ensures Capitalize(c) == "A" && Capitalize(d) == "Test"
  {
    CapitalizeLowerWord(c);
    assert c[1..] == "";
    CapitalizeLowerWord(d);
    assert d[1..] == "est";
  }

  /** The unit-test cases of `title`: the empty title stays empty, and
      "this is a test" becomes "This Is A Test". (The words are parameters so
      that the verifier unfolds the definitions step by step.) */
  lemma {:induction false} TitleExamples(a: string, b: string, c: string, d: string)
    requires a == "this" && b == "is" && c == "a" && d == "test"
    ensures Title("") == ""
    ensures Title(a + " " + b + " " + c + " " + d) == "This Is A Test"
  {
    var ws := [a, b, c, d];
    var s := a + " " + b + " " + c + " " + d;
    JoinFour(a, b, c, d, " ");
    TitleOfWords(ws, s);
    CapitalizeSentence(a, b, c, d);
  }

  // ---------------------------------------------------------------------------
  // artist: the pattern /(\w+), ?(.*)/, searched leftmost-first

  /** JavaScript's `\w`. Unlike the casing word model it includes `_`. */
  predicate IsRegexWordChar(c: char)
  {
    IsWordChar(c) || c == '_'
  }

  /** The characters JavaScript's `.` does not match. */
  predicate IsLineTerminator(c: char)
  {
    c == '\n' || c == '\r' || c == '\U{2028}' || c == '\U{2029}'
  }

  /** End of the `\w` run starting at `i` (greedy `\w+`). */
  function RunEnd(s: string, i: nat): (j: nat)
    requires i <= |s|
    ensures i <= j <= |s|
    ensures forall k | i <= k < j :: IsRegexWordChar(s[k])
    ensures j < |s| ==> !IsRegexWordChar(s[j])
    decreases |s| - i
  {
    if i < |s| && IsRegexWordChar(s[i]) then RunEnd(s, i + 1) else i
  }

  /** The pattern matches at position `i`: a `\w` run starts there and is
      followed by a comma (backtracking to a shorter run never helps, since a
      shorter run is followed by another word character). */
  predicate MatchesAt(s: string, i: nat)
  {
    i < |s| && IsRegexWordChar(s[i]) && RunEnd(s, i) < |s| && s[RunEnd(s, i)] == ','
  }

  /** `String.prototype.match` tries positions left to right. */
  function LeftmostMatch(s: string, i: nat): (r: Option<nat>)
    requires i <= |s|
    ensures r.Some? ==> i <= r.value && MatchesAt(s, r.value)
    ensures r.Some? ==> forall k | i <= k < r.value :: !MatchesAt(s, k)
    ensures r.None? ==> forall k | i <= k < |s| :: !MatchesAt(s, k)
    decreases |s| - i
  {
    if i == |s| then None
    else if MatchesAt(s, i) then Some(i)
    else LeftmostMatch(s, i + 1)
  }

  /** Where the greedy `.*` stops: the first line terminator at or after `k`. */
  function LineEnd(s: string, k: nat): (e: nat)
    requires k <= |s|
    ensures k <= e <= |s|
    ensures forall m | k <= m < e :: !IsLineTerminator(s[m])
    ensures e < |s| ==> IsLineTerminator(s[e])
    decreases |s| - k
  {
    if k == |s| || IsLineTerminator(s[k]) then k else LineEnd(s, k + 1)
  }

  /** Position after the comma and the optional single space. */
  function AfterComma(s: string, c: nat): (k: nat)
    requires c < |s|
    ensures c + 1 <= k <= c + 2 && k <= |s|
  {
    if c + 1 < |s| && s[c + 1] == ' ' then c + 2 else c + 1
  }

  /** The two capture groups of `/(\w+), ?(.*)/`: surname and given names. */
  datatype NameGroups = NameGroups(last: string, first: string)

  function MatchName(s: string): Option<NameGroups>
  {
    match LeftmostMatch(s, 0)
    case None => None
    case Some(i) =>
      var c := RunEnd(s, i);
      var k := AfterComma(s, c);
      Some(NameGroups(s[i..c], s[k..LineEnd(s, k)]))
  }

  /** `artist(a)`: reorder "Last, First" to "First Last", then title-case. */
  function Artist(a: string): string
  {
    match MatchName(a)
    case Some(g) => Title(g.first + " " + g.last)
    case None => Title(a)
  }

  /** Some word character is immediately followed by a comma. */
  predicate HasWordComma(s: string)
  {
    exists c | 0 < c < |s| :: s[c] == ',' && IsRegexWordChar(s[c - 1])
  }

  /** `c` is the first comma that follows a word character. */
  predicate IsFirstWordComma(s: string, c: nat)
  {
    && 0 < c < |s| && s[c] == ',' && IsRegexWordChar(s[c - 1])
    && forall d | 0 < d < c :: !(s[d] == ',' && IsRegexWordChar(s[d - 1]))
  }

  /** Start of the maximal `\w` run that ends just before position `c`. */
  function RunStart(s: string, c: nat): (i: nat)
    requires c <= |s|
    ensures i <= c
    ensures forall k | i <= k < c :: IsRegexWordChar(s[k])
    ensures i == 0 || !IsRegexWordChar(s[i - 1])
  {
    if c > 0 && IsRegexWordChar(s[c - 1]) then RunStart(s, c - 1) else c
  }

  /** The pattern matches exactly when some word character precedes a comma;
      without one, `artist` is `title`. */
  lemma {:induction false} ArtistWithoutWordComma(s: string)
    ensures MatchName(s).None? <==> !HasWordComma(s)
    ensures !HasWordComma(s) ==> Artist(s) == Title(s)
  {
    if HasWordComma(s) {
      var c :| 0 < c < |s| && s[c] == ',' && IsRegexWordChar(s[c - 1]);
      assert RunEnd(s, c - 1) == c;
      assert MatchesAt(s, c - 1);
    }
    if LeftmostMatch(s, 0).Some? {
      var i := LeftmostMatch(s, 0).value;
      var c := RunEnd(s, i);
      assert 0 < c < |s| && s[c] == ',' && IsRegexWordChar(s[c - 1]);
    }
  }

  /** The surname is the whole `\w` run just before the first word-comma (text
      in front of that run is dropped), and the given names are what follows
      the comma and at most one space, up to the end of the line. */
  lemma {:induction false} ArtistGroups(s: string, c: nat)
    requires IsFirstWordComma(s, c)
    ensures MatchName(s) == Some(NameGroups(s[RunStart(s, c)..c], s[AfterComma(s, c)..LineEnd(s, AfterComma(s, c))]))
  {
    var start := RunStart(s, c);
    assert RunEnd(s, start) == c;
    assert MatchesAt(s, start);
    var i := LeftmostMatch(s, 0).value;
    assert i <= start;
    var c0 := RunEnd(s, i);
    assert s[c0] == ',' && IsRegexWordChar(s[c0 - 1]);
    assert c <= c0;
    assert i == start;
  }

  lemma {:induction false} CapitalizeBruce(w: string)
    requires w == "BRUCE"
    ensures Capitalize(w) == "Bruce"
  {
    var l := Lower(w);
    assert l[0] == 'b' && l[1] == 'r' && l[2] == 'u' && l[3] == 'c' && l[4] == 'e';
    assert l == "bruce";
    assert UpperFirst(l) == ['B'] + "ruce";
  }

  lemma {:induction false} CapitalizeLennyBruce(first: string, last: string)
    requires first == "Lenny" && last == "BRUCE"
    ensures Join(CapitalizeAll([first, last]), " ") == "Lenny Bruce"
  {
    CapitalizeKeepsCapitalized(first);
    CapitalizeBruce(last);
  }

  lemma {:induction false} TitleLennyBruce(first: string, last: string)
    requires first == "Lenny" && last == "BRUCE"
    ensures Title(first + " " + last) == "Lenny Bruce"
  {
    TitleOfWords([first, last], first + " " + last);
    CapitalizeLennyBruce(first, last);
  }

  lemma {:induction false} NoCommaInSpaced(a: string, b: string)
    requires ',' !in a && ',' !in b
    ensures !HasWordComma(a + " " + b)
  {
    var s := a + " " + b;
    forall d | 0 <= d < |s|
      ensures s[d] != ','
    {
      if d < |a| {
        assert s[d] == a[d];
      } else if d > |a| {
        assert s[d] == b[d - |a| - 1];
      }
    }
  }

  lemma {:induction false} ArtistPlain(first: string, last: string)
    requires first == "Lenny" && last == "BRUCE"
    ensures Artist(first + " " + last) == "Lenny Bruce"
  {
    var plain := first + " " + last;
    assert Artist(plain) == Title(plain) by {
      assert ',' !in first && ',' !in last;
      NoCommaInSpaced(first, last);
      ArtistWithoutWordComma(plain);
    }
    TitleLennyBruce(first, last);
  }

  lemma {:induction false} ReversedGroups(first: string, last: string)
    requires first == "Lenny" && last == "BRUCE"
    ensures MatchName(last + ", " + first) == Some(NameGroups(last, first))
  {
    var reversed := last + ", " + first;
    ReversedComma(first, last, reversed);
    ArtistGroups(reversed, 5);
    ReversedLineEnd(first, last, reversed);
    assert reversed[0..5] == last;
    assert reversed[7..12] == first;
  }

  lemma {:induction false} ReversedComma(first: string, last: string, reversed: string)
    requires first == "Lenny" && last == "BRUCE" && reversed == last + ", " + first
    ensures IsFirstWordComma(reversed, 5) && RunStart(reversed, 5) == 0
    ensures AfterComma(reversed, 5) == 7 && |reversed| == 12
  {
    assert reversed[4] == 'E' && reversed[5] == ',' && reversed[6] == ' ';
    assert forall d | 0 <= d < 5 :: reversed[d] == last[d];
    assert forall k | 0 <= k < 5 :: IsRegexWordChar(reversed[k]);
  }

  lemma {:induction false} ReversedLineEnd(first: string, last: string, reversed: string)
    requires first == "Lenny" && last == "BRUCE" && reversed == last + ", " + first
    ensures LineEnd(reversed, 7) == 12
  {
    assert forall m | 7 <= m < 12 :: reversed[m] == first[m - 7];
  }

  lemma {:induction false} ArtistReversed(first: string, last: string)
    requires first == "Lenny" && last == "BRUCE"
    ensures Artist(last + ", " + first) == "Lenny Bruce"
  {
    ReversedGroups(first, last);
    TitleLennyBruce(first, last);
  }

  /** A title is words of letters and digits joined by spaces: no comma. */
  lemma {:induction false} TitleHasNoComma(t: string)
    ensures ',' !in Title(t)
  {
    TitleShape(t);
    JoinedWordsHaveNoComma(Words(Title(t)));
  }

  lemma {:induction false} JoinedWordsHaveNoComma(ws: seq<string>)
    requires forall i | 0 <= i < |ws| :: IsWord(ws[i])
    ensures ',' !in Join(ws, " ")
  {
    forall i, k | 0 <= i < |ws| && 0 <= k < |ws[i]|
      ensures ws[i][k] != ','
    {
      assert IsWordChar(ws[i][k]);
    }
    JoinKeeps(ws, " ", c => c != ',');
  }

  /** `artist` is a normal form: a normalised name has no word-comma left to
      reorder, so normalising it again changes nothing. */
  lemma {:induction false} ArtistIdempotent(s: string)
    ensures Artist(Artist(s)) == Artist(s)
  {
    var x := match MatchName(s) case Some(g) => g.first + " " + g.last case None => s;
    assert Artist(s) == Title(x);
    TitleHasNoComma(x);
    ArtistWithoutWordComma(Artist(s));
    TitleIdempotent(x);
  }

  /** The unit-test cases of `artist`: "" stays "", "Lenny BRUCE" and
      "BRUCE, Lenny" both become "Lenny Bruce". */
  lemma {:induction false} ArtistExamples(first: string, last: string)
    requires first == "Lenny" && last == "BRUCE"
    ensures Artist("") == ""
    ensures Artist(first + " " + last) == "Lenny Bruce"
    ensures Artist(last + ", " + first) == "Lenny Bruce"
  {
    ArtistWithoutWordComma("");
    TitleExamples("this", "is", "a", "test");
    ArtistPlain(first, last);
    ArtistReversed(first, last);
  }

  // ---------------------------------------------------------------------------
  // date and technique are reserved extension points

  function Date(d: string): string
  {
    d
  }

  function Technique(t: string): string
  {
    t
  }
}
