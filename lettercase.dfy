/**
 * The "Case" page of the renamer (`MainWindow.change_case`, bulky.py:574-582):
 * Python's `str.title`, `str.lower`, `str.upper` and `str.capitalize`,
 * restricted to the ASCII letters. Every other character is uncased and is
 * left as it is.
 */
module LetterCase {

  predicate IsUpper(c: char) { 'A' <= c <= 'Z' }
  predicate IsLower(c: char) { 'a' <= c <= 'z' }
  predicate IsCased(c: char) { IsUpper(c) || IsLower(c) }

  function UpperChar(c: char): (d: char)
    ensures !IsLower(d) && IsCased(d) == IsCased(c)
    ensures !IsLower(c) ==> d == c
  {
    if IsLower(c) then (c as int - 32) as char else c
  }

  function LowerChar(c: char): (d: char)
    ensures !IsUpper(d) && IsCased(d) == IsCased(c)
    ensures !IsUpper(c) ==> d == c
    ensures IsUpper(c) ==> UpperChar(d) == c
  {
    if IsUpper(c) then (c as int + 32) as char else c
  }

  /** The two case mappings forget which case a letter was in. */
  lemma LowerOfUpper(c: char)
    ensures LowerChar(UpperChar(c)) == LowerChar(c)
  {
  }

  /** `str.lower()` */
  function Lower(s: string): (r: string)
    ensures |r| == |s|
    ensures forall i :: 0 <= i < |s| ==> r[i] == LowerChar(s[i])
  {
    seq(|s|, i requires 0 <= i < |s| => LowerChar(s[i]))
  }

  /** `str.upper()` */
  function Upper(s: string): (r: string)
    ensures |r| == |s|
    ensures forall i :: 0 <= i < |s| ==> r[i] == UpperChar(s[i])
  {
    seq(|s|, i requires 0 <= i < |s| => UpperChar(s[i]))
  }

  /** A string in which every word (maximal run of cased characters) starts with an
      upper-case letter and goes on in lower case. */
  predicate IsTitled(r: string)
  {
    forall i :: 0 <= i < |r| && IsCased(r[i]) ==>
      (IsUpper(r[i]) <==> (i == 0 || !IsCased(r[i - 1])))
  }

  predicate NoUpper(r: string) { forall i :: 0 <= i < |r| ==> !IsUpper(r[i]) }
  predicate NoLower(r: string) { forall i :: 0 <= i < |r| ==> !IsLower(r[i]) }

  /** Python's title-casing loop: a character after a cased character is lowered,
      any other is raised; whether the previous character was cased is read from
      the input. */
  function TitleFrom(s: string, prevCased: bool): string
  {
    if s == [] then []
    else [if prevCased then LowerChar(s[0]) else UpperChar(s[0])] + TitleFrom(s[1..], IsCased(s[0]))
  }

  lemma {:induction false} TitleFromAt(s: string, prevCased: bool)
    ensures |TitleFrom(s, prevCased)| == |s|
    ensures forall i :: 0 <= i < |s| ==>
      TitleFrom(s, prevCased)[i]
        == if (if i == 0 then prevCased else IsCased(s[i - 1])) then LowerChar(s[i]) else UpperChar(s[i])
    ensures forall i :: 0 <= i < |s| ==>
      TitleFrom(s, prevCased)[i] == LowerChar(s[i]) || TitleFrom(s, prevCased)[i] == UpperChar(s[i])
  {
    if s != [] {
      TitleFromAt(s[1..], IsCased(s[0]));
      var r := TitleFrom(s, prevCased);
      forall i | 1 <= i < |s|
        ensures r[i] == if IsCased(s[i - 1]) then LowerChar(s[i]) else UpperChar(s[i])
      {
        assert r[i] == TitleFrom(s[1..], IsCased(s[0]))[i - 1];
        assert s[1..][i - 1] == s[i];
        if i >= 2 {
          assert s[1..][i - 2] == s[i - 1];
        }
      }
    }
  }

  /** `str.title()` */
  function Title(s: string): (r: string)
    ensures |r| == |s|
    ensures forall i :: 0 <= i < |s| ==>
      r[i] == if i > 0 && IsCased(s[i - 1]) then LowerChar(s[i]) else UpperChar(s[i])
    ensures forall i :: 0 <= i < |s| ==> r[i] == LowerChar(s[i]) || r[i] == UpperChar(s[i])
  {
    TitleFromAt(s, false);
    TitleFrom(s, false)
  }

  /** `str.capitalize()`: the first character raised, the rest lowered. */
  function Capitalize(s: string): (r: string)
    ensures |r| == |s|
    ensures |s| > 0 ==> r[0] == UpperChar(s[0])
    ensures forall i :: 1 <= i < |s| ==> r[i] == LowerChar(s[i])
  {
    if s == [] then [] else [UpperChar(s[0])] + Lower(s[1..])
  }

  /** The radio buttons of the "Case" page, read in the order the source tests them. */
  datatype CaseConfig = CaseConfig(title: bool, lower: bool, upper: bool)

  /** bulky.py:574-582: title case wins over lower case, lower over upper, and
      capitalizing is the fallback. Whatever the mode, only the case of letters
      changes, and the result has that mode's shape. */
  function ChangeCase(cfg: CaseConfig, s: string): (r: string)
    ensures |r| == |s| && Lower(r) == Lower(s)
    ensures cfg.title ==> IsTitled(r)
    ensures !cfg.title && cfg.lower ==> NoUpper(r)
    ensures !cfg.title && !cfg.lower && cfg.upper ==> NoLower(r)
    ensures !cfg.title && !cfg.lower && !cfg.upper ==>
      (|r| > 0 ==> !IsLower(r[0]) && NoUpper(r[1..]))
  {
    if cfg.title then
      TitleIsTitled(s);
      SameLetters(Title(s), s);
      Title(s)
    else if cfg.lower then
      SameLetters(Lower(s), s);
      Lower(s)
    else if cfg.upper then
      SameLetters(Upper(s), s);
      Upper(s)
    else
      var r := Capitalize(s);
      SameLetters(r, s);
      assert |r| > 0 ==> NoUpper(r[1..]) by {
        if |r| > 0 {
          forall i | 0 <= i < |r| - 1 ensures !IsUpper(r[1..][i]) {
            assert r[1..][i] == r[i + 1] == LowerChar(s[i + 1]);
          }
        }
      }
      r
  }

  /** A per-character case mapping keeps the letters. */
  lemma SameLetters(r: string, s: string)
    requires |r| == |s|
    requires forall i :: 0 <= i < |s| ==> r[i] == LowerChar(s[i]) || r[i] == UpperChar(s[i])
    ensures Lower(r) == Lower(s)
  {
    forall i | 0 <= i < |s| ensures Lower(r)[i] == Lower(s)[i] {
      LowerOfUpper(s[i]);
    }
  }

  lemma TitleIsTitled(s: string)
    ensures IsTitled(Title(s))
  {
    var r := Title(s);
    forall i | 0 <= i < |r| && IsCased(r[i])
      ensures IsUpper(r[i]) <==> (i == 0 || !IsCased(r[i - 1]))
    {
      if i > 0 {
        assert IsCased(r[i - 1]) == IsCased(s[i - 1]);
      }
    }
  }

  /** Each mode is idempotent: applying it to its own output changes nothing. */
  lemma TitleIdempotent(s: string)
    ensures Title(Title(s)) == Title(s)
  {
    var r := Title(s);
    forall i | 0 <= i < |s| ensures Title(r)[i] == r[i] {
      if i > 0 {
        assert IsCased(r[i - 1]) == IsCased(s[i - 1]);
      }
    }
  }

  lemma LowerIdempotent(s: string)
    ensures Lower(Lower(s)) == Lower(s)
  {
    assert forall i :: 0 <= i < |s| ==> Lower(Lower(s))[i] == Lower(s)[i];
  }

  lemma UpperIdempotent(s: string)
    ensures Upper(Upper(s)) == Upper(s)
  {
    assert forall i :: 0 <= i < |s| ==> Upper(Upper(s))[i] == Upper(s)[i];
  }

  lemma CapitalizeIdempotent(s: string)
    ensures Capitalize(Capitalize(s)) == Capitalize(s)
  {
    var r := Capitalize(s);
    assert forall i :: 0 <= i < |s| ==> Capitalize(r)[i] == r[i];
  }

  /** Title-casing starts a new word after any uncased character, apostrophes
      included, as Python does. */
  lemma TitleExample()
    ensures Title("it's a.b") == "It'S A.B"
  {
    var r := Title("it's a.b");
    assert r[0] == 'I' && r[1] == 't' && r[2] == '\'' && r[3] == 'S';
    assert r[4] == ' ' && r[5] == 'A' && r[6] == '.' && r[7] == 'B';
  }
}
