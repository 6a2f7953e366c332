/**
  The string built-ins the extractor relies on: `str.find`, the token count of
  `str.split()` with no separator, and the whole-text language heuristic.
 */
module TextSearch {
  import opened Entities

  /** `pat` occurs in `text` at `i` and at no smaller index `>= from`. */
  predicate FirstFrom(text: string, pat: string, from: int, i: int)
  {
    from <= i && OccursAt(text, pat, i) &&
    forall j :: from <= j < i ==> !OccursAt(text, pat, j)
  }

  /** `text.find(pat, from)`: the least index `>= from` at which `pat` occurs,
      or -1 when there is none. */
  function FindFrom(text: string, pat: string, from: nat): (r: int)
    ensures r == -1 || from <= r <= |text| - |pat|
    decreases |text| - from
  {
    if from + |pat| > |text| then -1
    else if text[from..from + |pat|] == pat then from
    else FindFrom(text, pat, from + 1)
  }

  /** The search from `from` finds the first occurrence at or after `from`,
      and fails exactly when there is none. */
  lemma {:induction false} FindFromFirst(text: string, pat: string, from: nat)
    ensures FindFrom(text, pat, from) == -1 || FirstFrom(text, pat, from, FindFrom(text, pat, from))
    ensures FindFrom(text, pat, from) == -1 <==> forall j :: from <= j ==> !OccursAt(text, pat, j)
    decreases |text| - from
  {
    if from + |pat| <= |text| && text[from..from + |pat|] != pat {
      FindFromFirst(text, pat, from + 1);
    }
  }

  /** `text.find(pat)`: the first occurrence of `pat`, or -1. */
  function Find(text: string, pat: string): (r: int)
    ensures r == -1 || 0 <= r <= |text| - |pat|
  {
    FindFrom(text, pat, 0)
  }

  /** `find` fails exactly when `pat` does not occur, and otherwise returns
      the first place it occurs. */
  lemma FindFirst(text: string, pat: string)
    ensures Find(text, pat) == -1 <==> !Occurs(text, pat)
    ensures Find(text, pat) != -1 ==> FirstFrom(text, pat, 0, Find(text, pat))
  {
    FindFromFirst(text, pat, 0);
  }

  /** The characters Python's `str.isspace` accepts, on which `str.split()`
      with no argument splits. */
  const Whitespace: string :=
    " \t\n\r\U{000B}\U{000C}\U{001C}\U{001D}\U{001E}\U{001F}\U{0085}\U{00A0}\U{1680}" +
    "\U{2000}\U{2001}\U{2002}\U{2003}\U{2004}\U{2005}\U{2006}\U{2007}\U{2008}\U{2009}\U{200A}" +
    "\U{2028}\U{2029}\U{202F}\U{205F}\U{3000}"

  predicate IsSpace(c: char)
  {
    Among(c, Whitespace)
  }

  /** `c` is one of the characters of `cs`. */
  predicate Among(c: char, cs: string)
  {
    cs != [] && (cs[0] == c || Among(c, cs[1..]))
  }

  /** A token of `str.split()` begins at `i`: a non-space character that is
      first or follows a space. */
  predicate TokenStart(s: string, i: int)
    requires 0 <= i < |s|
  {
    !IsSpace(s[i]) && (i == 0 || IsSpace(s[i - 1]))
  }

  /** `len(s.split())`: the number of maximal runs of non-space characters. */
  function TokenCount(s: string): nat
  {
    if s == [] then 0
    else TokenCount(s[..|s| - 1]) + (if TokenStart(s, |s| - 1) then 1 else 0)
  }

  /** `s` holds a non-space character. */
  predicate HasNonSpace(s: string)
  {
    exists i :: 0 <= i < |s| && !IsSpace(s[i])
  }

  /** `s` holds two non-space characters with a space between them. */
  predicate MultiToken(s: string)
  {
    exists i, j, k :: 0 <= i < j < k < |s| && !IsSpace(s[i]) && IsSpace(s[j]) && !IsSpace(s[k])
  }

  /** `s.split()` is non-empty exactly when `s` is not all whitespace. */
  lemma {:induction false} TokenCountPositive(s: string)
    ensures TokenCount(s) > 0 <==> HasNonSpace(s)
  {
    if s != [] {
      var p := s[..|s| - 1];
      TokenCountPositive(p);
      assert forall i :: 0 <= i < |p| ==> p[i] == s[i];
    }
  }

  /** A string with two tokens has a space between two non-space characters. */
  lemma {:induction false} TwoTokensSeparated(s: string)
    requires TokenCount(s) > 1
    ensures MultiToken(s)
  {
    var n := |s|;
    var p := s[..n - 1];
    assert forall i :: 0 <= i < |p| ==> p[i] == s[i];
    if TokenCount(p) > 1 {
      TwoTokensSeparated(p);
      var i, j, k :| 0 <= i < j < k < |p| && !IsSpace(p[i]) && IsSpace(p[j]) && !IsSpace(p[k]);
    } else {
      TokenCountPositive(p);
      var i :| 0 <= i < |p| && !IsSpace(p[i]);
      assert !IsSpace(s[i]) && IsSpace(s[n - 2]) && !IsSpace(s[n - 1]);
    }
  }

  /** A non-space character at `i` makes at least one token. */
  lemma {:induction false} NonSpaceToken(s: string, i: int)
    requires 0 <= i < |s| && !IsSpace(s[i])
    ensures TokenCount(s) > 0
  {
    var p := s[..|s| - 1];
    if !TokenStart(s, |s| - 1) {
      // the last character is a space, or continues a token that started earlier
      var i' := if i < |p| then i else |p| - 1;
      assert p[i'] == s[i'];
      NonSpaceToken(p, i');
    }
  }

  /** A space at `j` between non-space characters at `i` and `k` makes at
      least two tokens. */
  lemma {:induction false} SeparatedTwoTokens(s: string, i: int, j: int, k: int)
    requires 0 <= i < j < k < |s| && !IsSpace(s[i]) && IsSpace(s[j]) && !IsSpace(s[k])
    ensures TokenCount(s) > 1
  {
    var n := |s|;
    var p := s[..n - 1];
    assert p[i] == s[i] && p[j] == s[j];
    if k < n - 1 {
      assert p[k] == s[k];
      SeparatedTwoTokens(p, i, j, k);
    } else if IsSpace(s[n - 2]) {
      NonSpaceToken(p, i);
      assert TokenStart(s, n - 1);
    } else {
      assert p[n - 2] == s[n - 2];
      SeparatedTwoTokens(p, i, j, n - 2);
    }
  }

  /** `len(s.split()) > 1` holds exactly when `s` has a space between two
      non-space characters: the "at least two parts" test for a full name. */
  lemma MoreThanOneToken(s: string)
    ensures TokenCount(s) > 1 <==> MultiToken(s)
  {
    if TokenCount(s) > 1 {
      TwoTokensSeparated(s);
    }
    if MultiToken(s) {
      var i, j, k :| 0 <= i < j < k < |s| && !IsSpace(s[i]) && IsSpace(s[j]) && !IsSpace(s[k]);
      SeparatedTwoTokens(s, i, j, k);
    }
  }

  /** The characters whose presence marks a text as German. */
  const GermanChars: string := "äöüÄÖÜß"

  /** `any(char in text for char in cs)`. */
  function AnyCharIn(cs: string, text: string): (b: bool)
    ensures b <==> exists j :: 0 <= j < |cs| && cs[j] in text
  {
    if cs == [] then false
    else if cs[0] in text then true
    else
      var rest := AnyCharIn(cs[1..], text);
      assert forall j :: 1 <= j < |cs| ==> cs[j] == cs[1..][j - 1];
      rest
  }

  /** The whole-text language heuristic: German exactly when some character of
      the text is one of "äöüÄÖÜß". */
  function IsGerman(text: string): (b: bool)
    ensures b <==> exists i :: 0 <= i < |text| && text[i] in GermanChars
  {
    AnyCharIn(GermanChars, text)
  }
}
