/**
 * The find pattern of the "Replace" page when regular expressions are off
 * (bulky.py:530-534): `*` stands for one or more characters, `?` for exactly
 * one, and every other character for itself. The source builds the regular
 * expression by swapping the wildcards for placeholder words, escaping the
 * whole with `re.escape`, and swapping the escaped placeholders for `.+` and
 * `.`. The model gives that pipeline as written and a direct translation,
 * together with a reader (`Parse`) for the regular-expression fragment both
 * produce, which states what a pattern means.
 */
module Wildcard {
  import opened Wrappers
  import opened PyStr

  /** The characters `re.escape` puts a backslash before (Python 3.7 and later). */
  predicate IsSpecial(c: char)
  {
    c in "()[]{}?*+-|^$\\.&~# \t\n\r\U{000B}\U{000C}"
  }

  function EscapeChar(c: char): (r: string)
    ensures 1 <= |r| <= 2
  {
    if IsSpecial(c) then ['\\', c] else [c]
  }

  /** `re.escape(s)` */
  function Escape(s: string): (r: string)
    ensures |s| <= |r| <= 2 * |s|
  {
    if s == [] then [] else EscapeChar(s[0]) + Escape(s[1..])
  }

  lemma {:induction false} EscapeAppend(a: string, b: string)
    ensures Escape(a + b) == Escape(a) + Escape(b)
    decreases |a|
  {
    if a != [] {
      assert (a + b)[1..] == a[1..] + b;
      EscapeAppend(a[1..], b);
    } else {
      assert a + b == b;
    }
  }

  /** Escaping adds backslashes and nothing else. */
  lemma {:induction false} EscapeAddsOnlyBackslashes(s: string, c: char)
    requires c != '\\' && c !in s
    ensures c !in Escape(s)
    decreases |s|
  {
    if s != [] {
      EscapeAddsOnlyBackslashes(s[1..], c);
    }
  }

  /** One element of the translated pattern. */
  datatype Atom = Literal(c: char) | AnyChar | OneOrMore

  function AtomOf(c: char): Atom
  {
    if c == '*' then OneOrMore else if c == '?' then AnyChar else Literal(c)
  }

  /** What the user's wildcard pattern means, character by character. */
  function Translate(find: string): (atoms: seq<Atom>)
    ensures |atoms| == |find|
    ensures forall i :: 0 <= i < |find| ==> atoms[i] == AtomOf(find[i])
  {
    seq(|find|, i requires 0 <= i < |find| => AtomOf(find[i]))
  }

  function RenderAtom(a: Atom): (r: string)
    ensures |r| > 0 && r[0] != '+'
  {
    match a
    case Literal(c) => EscapeChar(c)
    case AnyChar => "."
    case OneOrMore => ".+"
  }

  /** The regular-expression text for a sequence of atoms. */
  function Render(atoms: seq<Atom>): (r: string)
    ensures r == [] || r[0] != '+'
  {
    if atoms == [] then [] else RenderAtom(atoms[0]) + Render(atoms[1..])
  }

  function Cons(a: Atom, rest: Option<seq<Atom>>): Option<seq<Atom>>
  {
    if rest.Some? then Some([a] + rest.value) else None
  }

  /** Reads back the fragment of regular-expression syntax the translation uses:
      `.+`, `.`, a backslash-escaped special character, or a plain character.
      Anything else is outside the fragment. */
  function Parse(p: string): Option<seq<Atom>>
    decreases |p|
  {
    if p == [] then Some([])
    else if p[0] == '\\' then
      if |p| >= 2 && IsSpecial(p[1]) then Cons(Literal(p[1]), Parse(p[2..])) else None
    else if p[0] == '.' then
      if |p| >= 2 && p[1] == '+' then Cons(OneOrMore, Parse(p[2..])) else Cons(AnyChar, Parse(p[1..]))
    else if IsSpecial(p[0]) then None
    else Cons(Literal(p[0]), Parse(p[1..]))
  }

  lemma ParseAtom(a: Atom, rest: string)
    requires rest == [] || rest[0] != '+'
    ensures Parse(RenderAtom(a) + rest) == Cons(a, Parse(rest))
  {
    var p := RenderAtom(a) + rest;
    match a
    case Literal(c) =>
      if IsSpecial(c) { assert p[2..] == rest; } else { assert p[1..] == rest; }
    case AnyChar =>
      assert p[1..] == rest;
    case OneOrMore =>
      assert p[2..] == rest;
  }

  /** Rendering loses nothing: the rendered text reads back as the same atoms. */
  lemma {:induction false} ParseRender(atoms: seq<Atom>)
    ensures Parse(Render(atoms)) == Some(atoms)
  {
    if atoms != [] {
      ParseRender(atoms[1..]);
      ParseAtom(atoms[0], Render(atoms[1..]));
      assert [atoms[0]] + atoms[1..] == atoms;
    }
  }

  lemma RenderInjective(a: seq<Atom>, b: seq<Atom>)
    requires Render(a) == Render(b)
    ensures a == b
  {
    ParseRender(a);
    ParseRender(b);
  }

  /** The regular expression for a wildcard pattern: each `*` becomes `.+`, each `?`
      becomes `.`, and every other character is escaped to match itself. */
  function WildcardPattern(find: string): (p: string)
    ensures Parse(p) == Some(Translate(find))
  {
    ParseRender(Translate(find));
    Render(Translate(find))
  }

  /** The placeholder words of bulky.py:530-531. */
  const StarMark: string := "~~~REGSTAR~~~"
  const QuesMark: string := "~~~REGQUES~~~"

  /** bulky.py:530-534, as written. */
  function WildcardPatternAsWritten(find: string): string
  {
    var f := Replace(find, "*", StarMark);
    var f := Replace(f, "?", QuesMark);
    var f := Escape(f);
    var f := Replace(f, Escape(StarMark), ".+");
    Replace(f, Escape(QuesMark), ".")
  }

  lemma {:induction false} EscapeIsRender(find: string)
    requires '*' !in find && '?' !in find
    ensures Render(Translate(find)) == Escape(find)
    decreases |find|
  {
    if find != [] {
      assert Translate(find)[1..] == Translate(find[1..]);
      EscapeIsRender(find[1..]);
    }
  }

  /** Without wildcards and without `~`, the pipeline as written escapes the pattern,
      as the direct translation does. */
  lemma AsWrittenAgrees(find: string)
    requires '*' !in find && '?' !in find && '~' !in find
    ensures WildcardPatternAsWritten(find) == WildcardPattern(find)
  {
    ReplaceAbsent(find, "*", StarMark);
    ReplaceAbsent(find, "?", QuesMark);
    EscapeAddsOnlyBackslashes(find, '~');
    var e := Escape(find);
    EscapedMarkStart();
    ReplaceMissing(e, Escape(StarMark), ".+", 1);
    ReplaceMissing(e, Escape(QuesMark), ".", 1);
    EscapeIsRender(find);
  }

  /** As written, searching for the literal text `~~~REGSTAR~~~` (no wildcard in it)
      compiles to `.+`, which matches every non-empty name; the direct translation
      matches that text only. */
  lemma AsWrittenPlaceholderClash()
    ensures WildcardPatternAsWritten(StarMark) == ".+"
    ensures Parse(".+") == Some([OneOrMore])
    ensures Parse(WildcardPattern(StarMark)) == Some(Translate(StarMark))
    ensures |Translate(StarMark)| == 13 && Translate(StarMark)[0] == Literal('~')
  {
    MarkCompilesToAny();
    ParseAnyNonEmpty();
    MarkTranslatesLiterally();
  }

  lemma MarkTranslatesLiterally()
    ensures Parse(WildcardPattern(StarMark)) == Some(Translate(StarMark))
    ensures |Translate(StarMark)| == 13 && Translate(StarMark)[0] == Literal('~')
  {
    var t := Translate(StarMark);
    assert |StarMark| == 13 && StarMark[0] == '~';
    assert t[0] == AtomOf('~');
  }

  lemma MarkCompilesToAny()
    ensures WildcardPatternAsWritten(StarMark) == ".+"
  {
    MarksHaveNoWildcard();
    ReplaceAbsent(StarMark, "*", StarMark);
    ReplaceAbsent(StarMark, "?", QuesMark);
    EscapedMarkReplaced();
  }

  lemma MarksHaveNoWildcard()
    ensures '*' !in StarMark && '?' !in StarMark
  {
  }

  lemma EscapedMarkReplaced()
    ensures Replace(Replace(Escape(StarMark), Escape(StarMark), ".+"), Escape(QuesMark), ".") == ".+"
  {
    EscapedMarkStart();
    ReplaceWholeThenAbsent(Escape(StarMark), Escape(QuesMark));
  }

  /** Both escaped placeholders start with an escaped `~`. */
  lemma EscapedMarkStart()
    ensures |Escape(StarMark)| > 1 && Escape(StarMark)[0] == '\\' && Escape(StarMark)[1] == '~'
    ensures |Escape(QuesMark)| > 1 && Escape(QuesMark)[0] == '\\' && Escape(QuesMark)[1] == '~'
  {
    EscapeTilde(StarMark);
    EscapeTilde(QuesMark);
  }

  lemma EscapeTilde(s: string)
    requires |s| > 0 && s[0] == '~'
    ensures |Escape(s)| > 1 && Escape(s)[0] == '\\' && Escape(s)[1] == '~'
  {
    assert IsSpecial('~');
    assert Escape(s) == ['\\', '~'] + Escape(s[1..]);
  }

  lemma ReplaceWholeThenAbsent(e: string, q: string)
    requires |e| > 0 && |q| > 0 && q[0] == '\\'
    ensures Replace(Replace(e, e, ".+"), q, ".") == ".+"
  {
    ReplaceAtStart([], e, ".+");
    assert e + [] == e;
    assert ".+" + [] == ".+";
    ReplaceAbsent(".+", q, ".");
  }

  lemma ParseAnyNonEmpty()
    ensures Parse(".+") == Some([OneOrMore])
  {
    var p := ".+";
    assert p[0] == '.' && p[1] == '+' && p[2..] == [];
    assert Parse(p) == Cons(OneOrMore, Parse([]));
    assert [OneOrMore] + [] == [OneOrMore];
  }

  /** No `?` of the search text is directly followed by `R`. */
  predicate NoRAfterQues(find: string)
  {
    forall i :: 0 < i < |find| && find[i - 1] == '?' ==> find[i] != 'R'
  }

  /** Without `~` in the search text, and with no `R` right after a `?`, the placeholder
      pipeline as written gives the direct translation, wildcards included: each
      placeholder then survives the escaping as one block that nothing next to it can
      complete or break up. */
  lemma AsWrittenAgreesWithWildcards(find: string)
    requires '~' !in find && NoRAfterQues(find)
    ensures WildcardPatternAsWritten(find) == WildcardPattern(find)
  {
    var marked := Replace(Replace(find, "*", StarMark), "?", QuesMark);
    MarkingStage(find);
    EscapeMarked(find);
    EscapedMarks();
    assert Escape(marked) == EscapedPieces(find);
    StarStage(find);
    QuesStage(find);
  }

  /** What a character of the search text becomes after the two placeholder replaces. */
  function MarkOf(c: char): string
  {
    if c == '*' then StarMark else if c == '?' then QuesMark else [c]
  }

  function Marked(find: string): string
  {
    if find == [] then [] else MarkOf(find[0]) + Marked(find[1..])
  }

  /** The escaped placeholders, written out. */
  const EscTildes: string := "\\~\\~\\~"
  const EscStar: string := EscTildes + "REGSTAR" + EscTildes
  const EscQues: string := EscTildes + "REGQUES" + EscTildes

  /** What a character becomes once the marked text is escaped. */
  function EscapedPiece(c: char): string
  {
    if c == '*' then EscStar else if c == '?' then EscQues else EscapeChar(c)
  }

  function EscapedPieces(find: string): string
  {
    if find == [] then [] else EscapedPiece(find[0]) + EscapedPieces(find[1..])
  }

  /** What a character becomes once the escaped star placeholders are replaced. */
  function HalfPiece(c: char): string
  {
    if c == '*' then ".+" else if c == '?' then EscQues else EscapeChar(c)
  }

  function HalfPieces(find: string): string
  {
    if find == [] then [] else HalfPiece(find[0]) + HalfPieces(find[1..])
  }

  /** How the pieces can start: never with `~`, and an escaped `~` at the front is the
      first of three. */
  predicate GoodHead(y: string)
  {
    y == [] ||
    (y[0] != '~' &&
     (|y| > 1 && y[0] == '\\' && y[1] == '~' ==> |y| >= 6 && y[..6] == "\\~\\~\\~"))
  }

  lemma EscapedMarks()
    ensures Escape(StarMark) == EscStar && Escape(QuesMark) == EscQues
  {
    EscapedStar();
    EscapedQues();
  }

  lemma EscapedStar()
    ensures Escape(StarMark) == EscStar
  {
    var w := "REGSTAR";
    assert forall i :: 0 <= i < |w| ==> 'A' <= w[i] <= 'Z';
    EscapeMark(w);
    assert StarMark == "~~~" + w + "~~~";
  }

  lemma EscapedQues()
    ensures Escape(QuesMark) == EscQues
  {
    var w := "REGQUES";
    assert forall i :: 0 <= i < |w| ==> 'A' <= w[i] <= 'Z';
    EscapeMark(w);
    assert QuesMark == "~~~" + w + "~~~";
  }

  /** A placeholder word between three `~` on each side. */
  lemma EscapeMark(w: string)
    requires forall i :: 0 <= i < |w| ==> 'A' <= w[i] <= 'Z'
    ensures Escape("~~~" + w + "~~~") == EscTildes + w + EscTildes
  {
    EscapeAppend("~~~" + w, "~~~");
    EscapeAppend("~~~", w);
    EscapeTildes();
    EscapeUpper(w);
  }

  lemma EscapeTildes()
    ensures Escape("~~~") == EscTildes
  {
    assert IsSpecial('~');
    assert "~~~"[1..] == "~~" && "~~"[1..] == "~" && "~"[1..] == [];
  }

  lemma {:induction false} EscapeUpper(w: string)
    requires forall i :: 0 <= i < |w| ==> 'A' <= w[i] <= 'Z'
    ensures Escape(w) == w
    decreases |w|
  {
    if w != [] {
      assert !IsSpecial(w[0]);
      EscapeUpper(w[1..]);
      assert [w[0]] + w[1..] == w;
    }
  }

  lemma EscapeMarkOf(c: char)
    ensures Escape(MarkOf(c)) == EscapedPiece(c)
  {
    if c == '*' || c == '?' {
      EscapedMarks();
    } else {
      assert [c][1..] == [];
    }
  }

  lemma {:induction false} MarkingStage(find: string)
    ensures Replace(Replace(find, "*", StarMark), "?", QuesMark) == Marked(find)
    decreases |find|
  {
    if find != [] {
      var c, x := find[0], find[1..];
      assert find == [c] + x;
      MarkingStage(x);
      var r1 := Replace(x, "*", StarMark);
      ConsPrefix('*', [], c, x);
      assert "*" == ['*'] + [];
      if c == '*' {
        ReplaceAtStart(x, "*", StarMark);
        ReplaceKeepsPrefix(StarMark, r1, "?", QuesMark);
      } else {
        ReplaceNoMatchStart(c, x, "*", StarMark);
        assert "?" == ['?'] + [];
        ConsPrefix('?', [], c, r1);
        if c == '?' {
          ReplaceAtStart(r1, "?", QuesMark);
        } else {
          ReplaceNoMatchStart(c, r1, "?", QuesMark);
        }
      }
    } else {
      assert Replace(find, "*", StarMark) == [];
    }
  }

  lemma {:induction false} EscapeMarked(find: string)
    ensures Escape(Marked(find)) == EscapedPieces(find)
    decreases |find|
  {
    if find != [] {
      EscapeMarked(find[1..]);
      EscapeAppend(MarkOf(find[0]), Marked(find[1..]));
      EscapeMarkOf(find[0]);
    }
  }

  lemma {:induction false} EscapedPiecesHead(find: string)
    requires '~' !in find
    ensures GoodHead(EscapedPieces(find))
    ensures (find == [] || find[0] != 'R') ==> (EscapedPieces(find) == [] || EscapedPieces(find)[0] != 'R')
  {
    if find != [] {
      var y := EscapedPieces(find);
      var c := find[0];
      assert c != '~';
      if c == '*' || c == '?' {
        assert y[..6] == EscapedPiece(c)[..6];
      } else if IsSpecial(c) {
        assert y[0] == '\\' && y[1] == c;
      } else {
        assert y[0] == c;
      }
    }
  }

  lemma {:induction false} HalfPiecesHead(find: string)
    requires '~' !in find
    ensures GoodHead(HalfPieces(find))
  {
    if find != [] {
      var y := HalfPieces(find);
      var c := find[0];
      assert c != '~';
      if c == '*' {
        assert y[0] == '.';
      } else if c == '?' {
        assert y[..6] == EscQues[..6];
      } else if IsSpecial(c) {
        assert y[0] == '\\' && y[1] == c;
      } else {
        assert y[0] == c;
      }
    }
  }

  /** `Replace` copies a block no position of which starts an occurrence. */
  lemma {:induction false} ReplaceSkip(u: string, y: string, pat: string, rep: string)
    requires |pat| > 0
    requires forall i :: 0 <= i < |u| ==> !(pat <= u[i..] + y)
    ensures Replace(u + y, pat, rep) == u + Replace(y, pat, rep)
    decreases |u|
  {
    if u != [] {
      assert u[1..] + y == (u + y)[1..];
      forall i | 0 <= i < |u| - 1 ensures !(pat <= u[1..][i..] + y) {
        assert u[1..][i..] == u[i + 1..];
      }
      ReplaceSkip(u[1..], y, pat, rep);
      assert u + y == [u[0]] + (u[1..] + y);
      assert u[0..] == u;
      ReplaceNoMatchStart(u[0], u[1..] + y, pat, rep);
      assert [u[0]] + u[1..] == u;
    } else {
      assert u + y == y;
    }
  }

  /** `p` is no prefix of `w` when they differ at `j`. */
  lemma DiffersAt(p: string, w: string, j: nat)
    requires j < |p| && (j >= |w| || p[j] != w[j])
    ensures !(p <= w)
  {
  }

  /** An escaped character other than `~` never starts an escaped placeholder. */
  lemma CharPieceSkip(c: char, y: string, pat: string, rep: string)
    requires c != '~' && |pat| >= 2 && pat[0] == '\\' && pat[1] == '~'
    requires y == [] || y[0] != '~'
    ensures Replace(EscapeChar(c) + y, pat, rep) == EscapeChar(c) + Replace(y, pat, rep)
  {
    var u := EscapeChar(c);
    forall i | 0 <= i < |u| ensures !(pat <= u[i..] + y) {
      var w := u[i..] + y;
      if i == 0 {
        if IsSpecial(c) { DiffersAt(pat, w, 1); } else { DiffersAt(pat, w, 0); }
      } else if c == '\\' {
        DiffersAt(pat, w, 1);
      } else {
        DiffersAt(pat, w, 0);
      }
    }
    ReplaceSkip(u, y, pat, rep);
  }

  /** The escaped question-mark placeholder never hides an escaped star placeholder,
      unless what follows it starts with `R`. */
  lemma QuesSkip(y: string)
    requires GoodHead(y) && (y == [] || y[0] != 'R')
    ensures Replace(EscQues + y, EscStar, ".+") == EscQues + Replace(y, EscStar, ".+")
  {
    forall i | 0 <= i < |EscQues| ensures !(EscStar <= EscQues[i..] + y) {
      QuesNoStarAt(i, y);
    }
    ReplaceSkip(EscQues, y, EscStar, ".+");
  }

  lemma QuesNoStarAt(i: nat, y: string)
    requires i < |EscQues| && GoodHead(y) && (y == [] || y[0] != 'R')
    ensures !(EscStar <= EscQues[i..] + y)
  {
    var w := EscQues[i..] + y;
    if i == 0 {
      DiffersAt(EscStar, w, 9);
    } else if i == 2 {
      assert w[4] == EscQues[6] == 'R' && EscStar[4] == '\\';
      DiffersAt(EscStar, w, 4);
    } else if i == 4 {
      assert w[2] == EscQues[6] == 'R' && EscStar[2] == '\\';
      DiffersAt(EscStar, w, 2);
    } else if i < 13 || i == 14 || i == 16 || i == 18 {
      DiffersAt(EscStar, w, 0);
    } else if i == 13 {
      DiffersAt(EscStar, w, 6);
    } else if i == 15 {
      if |y| > 0 && y[0] == '\\' && |y| > 1 && y[1] == '~' {
        DiffersAt(EscStar, w, 6);
      } else if |y| > 0 && y[0] == '\\' {
        DiffersAt(EscStar, w, 5);
      } else {
        DiffersAt(EscStar, w, 4);
      }
    } else {
      assert i == 17;
      if |y| > 0 && y[0] == '\\' && |y| > 1 && y[1] == '~' {
        assert y[4] == '\\';
        DiffersAt(EscStar, w, 6);
      } else if |y| > 0 && y[0] == '\\' {
        DiffersAt(EscStar, w, 3);
      } else {
        DiffersAt(EscStar, w, 2);
      }
    }
  }

  lemma {:induction false} StarStage(find: string)
    requires '~' !in find && NoRAfterQues(find)
    ensures Replace(EscapedPieces(find), EscStar, ".+") == HalfPieces(find)
    decreases |find|
  {
    if find != [] {
      var x := find[1..];
      assert forall i :: 0 < i < |x| ==> x[i - 1] == find[i] && x[i] == find[i + 1];
      StarStage(x);
      if find[0] == '?' && x != [] {
        assert find[1] == x[0];
      }
      StarStep(find[0], x);
    }
  }

  /** One character through the replacement of the escaped star placeholders. */
  lemma StarStep(c: char, x: string)
    requires c != '~' && '~' !in x && (c == '?' ==> x == [] || x[0] != 'R')
    ensures Replace(EscapedPiece(c) + EscapedPieces(x), EscStar, ".+")
            == HalfPiece(c) + Replace(EscapedPieces(x), EscStar, ".+")
  {
    var y := EscapedPieces(x);
    EscapedPiecesHead(x);
    if c == '*' {
      ReplaceAtStart(y, EscStar, ".+");
    } else if c == '?' {
      QuesSkip(y);
    } else {
      CharPieceSkip(c, y, EscStar, ".+");
    }
  }

  lemma {:induction false} QuesStage(find: string)
    requires '~' !in find
    ensures Replace(HalfPieces(find), EscQues, ".") == Render(Translate(find))
    decreases |find|
  {
    if find != [] {
      var c, x := find[0], find[1..];
      var y := HalfPieces(x);
      QuesStage(x);
      HalfPiecesHead(x);
      assert Translate(find)[1..] == Translate(x);
      if c == '*' {
        ReplaceKeepsPrefix(".+", y, EscQues, ".");
      } else if c == '?' {
        ReplaceAtStart(y, EscQues, ".");
      } else {
        CharPieceSkip(c, y, EscQues, ".");
      }
    }
  }
}
