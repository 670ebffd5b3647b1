/**
 * The pieces of Python's string semantics that the renamer's arithmetic
 * relies on: slicing with possibly negative or out-of-range bounds,
 * `str.replace`, and zero-padded decimal formatting (`"{:0Nd}".format`).
 */
module PyStr {

  /** Python's normalisation of one slice bound against a length `n`:
      a negative bound counts from the end, and the result is clamped to [0, n]. */
  function Bound(i: int, n: nat): (k: nat)
    ensures k <= n
    ensures 0 <= i <= n ==> k == i
    ensures n < i ==> k == n
  {
    if i < 0 then (if i + n < 0 then 0 else i + n)
    else if i > n then n
    else i
  }

  /** `s[i:j]` for any integers `i`, `j`. */
  function Slice<T>(s: seq<T>, i: int, j: int): (r: seq<T>)
    ensures |r| <= |s|
    ensures 0 <= i <= j <= |s| ==> r == s[i..j]
    ensures 0 <= j <= i ==> r == []
  {
    var a, b := Bound(i, |s|), Bound(j, |s|);
    if a < b then s[a..b] else []
  }

  /** `s[i:]`: what is left of `s` from index `i` on. */
  function Drop<T>(s: seq<T>, i: int): (r: seq<T>)
    ensures 0 <= i <= |s| ==> r == s[i..]
    ensures |s| <= i ==> r == []
  {
    Slice(s, i, |s|)
  }

  function Min(a: int, b: int): int { if a < b then a else b }
  function Max(a: int, b: int): int { if a < b then b else a }

  /** `s.replace(pat, rep)` for a non-empty `pat`: scanning from the left,
      every non-overlapping occurrence of `pat` is replaced by `rep`. */
  function Replace<T(==)>(s: seq<T>, pat: seq<T>, rep: seq<T>): seq<T>
    requires |pat| > 0
    decreases |s|
  {
    if s == [] then []
    else if pat <= s then rep + Replace(s[|pat|..], pat, rep)
    else [s[0]] + Replace(s[1..], pat, rep)
  }

  /** A string in which the first character of the pattern never occurs
      comes back from `Replace` unchanged. */
  lemma {:induction false} ReplaceAbsent<T>(s: seq<T>, pat: seq<T>, rep: seq<T>)
    requires |pat| > 0 && pat[0] !in s
    ensures Replace(s, pat, rep) == s
    decreases |s|
  {
    if s != [] {
      assert !(pat <= s) by { assert s[0] != pat[0]; }
      ReplaceAbsent(s[1..], pat, rep);
      assert [s[0]] + s[1..] == s;
    }
  }

  /** A string that lacks some character of the pattern holds no occurrence of it,
      and comes back from `Replace` unchanged. */
  lemma {:induction false} ReplaceMissing<T>(s: seq<T>, pat: seq<T>, rep: seq<T>, k: nat)
    requires k < |pat| && pat[k] !in s
    ensures Replace(s, pat, rep) == s
    decreases |s|
  {
    if s != [] {
      assert !(pat <= s);
      ReplaceMissing(s[1..], pat, rep, k);
      assert [s[0]] + s[1..] == s;
    }
  }

  /** A prefix that cannot start an occurrence of the pattern is copied through,
      and `Replace` carries on with the rest. */
  lemma {:induction false} ReplaceKeepsPrefix<T>(d: seq<T>, x: seq<T>, pat: seq<T>, rep: seq<T>)
    requires |pat| > 0 && pat[0] !in d
    ensures Replace(d + x, pat, rep) == d + Replace(x, pat, rep)
    decreases |d|
  {
    if d != [] {
      var s := d + x;
      assert s[0] == d[0] != pat[0];
      assert !(pat <= s);
      assert s[1..] == d[1..] + x;
      ReplaceKeepsPrefix(d[1..], x, pat, rep);
      calc {
        Replace(s, pat, rep);
        [s[0]] + Replace(s[1..], pat, rep);
        [d[0]] + (d[1..] + Replace(x, pat, rep));
        { assert [d[0]] + d[1..] == d; }
        d + Replace(x, pat, rep);
      }
    } else {
      assert d + x == x;
    }
  }

  /** A string that does not start with the pattern keeps its first element. */
  lemma ReplaceNoMatchStart<T>(c: T, x: seq<T>, pat: seq<T>, rep: seq<T>)
    requires |pat| > 0 && !(pat <= [c] + x)
    ensures Replace([c] + x, pat, rep) == [c] + Replace(x, pat, rep)
  {
    assert ([c] + x)[1..] == x;
  }

  /** Prefixes of two non-empty sequences compare head first, then tail. */
  lemma ConsPrefix<T>(a: T, w: seq<T>, b: T, r: seq<T>)
    ensures [a] + w <= [b] + r <==> a == b && w <= r
  {
    if [a] + w <= [b] + r {
      assert ([a] + w)[0] == ([b] + r)[0];
      assert w == ([a] + w)[1..] <= ([b] + r)[1..] == r;
    }
    if a == b && w <= r {
      assert [a] + w == [b] + r[..|w|] == ([b] + r)[..|w| + 1];
    }
  }

  /** An occurrence of the pattern at the very start is replaced. */
  lemma ReplaceAtStart<T>(x: seq<T>, pat: seq<T>, rep: seq<T>)
    requires |pat| > 0
    ensures Replace(pat + x, pat, rep) == rep + Replace(x, pat, rep)
  {
    assert pat <= pat + x;
    assert (pat + x)[|pat|..] == x;
  }

  /** A string of `k` copies of `c`. */
  function Repeat<T>(c: T, k: nat): (r: seq<T>)
    ensures |r| == k
    ensures forall i :: 0 <= i < k ==> r[i] == c
  {
    if k == 0 then [] else [c] + Repeat(c, k - 1)
  }

  function Zeros(k: nat): (r: string)
    ensures |r| == k && '%' !in r && 'n' !in r
    ensures forall i :: 0 <= i < k ==> r[i] == '0'
  {
    Repeat('0', k)
  }

  predicate IsDigit(c: char) { '0' <= c <= '9' }

  predicate AllDigits(s: string) { forall i :: 0 <= i < |s| ==> IsDigit(s[i]) }

  function DigitChar(d: nat): (c: char)
    requires d < 10
    ensures IsDigit(c)
  {
    (48 + d) as char
  }

  function DigitValue(c: char): nat
    requires IsDigit(c)
  {
    c as int - 48
  }

  /** `str(n)`: the decimal digits of `n`, without leading zeros. */
  function Decimal(n: nat): (r: string)
    ensures 1 <= |r| && AllDigits(r)
    ensures 1 <= n ==> r[0] != '0'
    decreases n
  {
    if n < 10 then [DigitChar(n)] else Decimal(n / 10) + [DigitChar(n % 10)]
  }

  /** `"{:0wd}".format(n)`: `n` in decimal, left-padded with zeros to width `w`. */
  function ZeroPad(n: nat, w: nat): (r: string)
    ensures |r| == Max(w, |Decimal(n)|)
    ensures AllDigits(r) && '%' !in r && 'n' !in r
    ensures r[|r| - |Decimal(n)|..] == Decimal(n)
  {
    var d := Decimal(n);
    var r := Zeros(if w > |d| then w - |d| else 0) + d;
    assert forall i :: 0 <= i < |r| ==> IsDigit(r[i]);
    assert '%' !in r && 'n' !in r by {
      forall i | 0 <= i < |r| ensures r[i] != '%' && r[i] != 'n' { assert IsDigit(r[i]); }
    }
    r
  }

  /** The value of a string of decimal digits, leading zeros included (`int(s)`). */
  function ParseDecimal(s: string): nat
    requires AllDigits(s)
  {
    if s == [] then 0 else ParseDecimal(s[..|s| - 1]) * 10 + DigitValue(s[|s| - 1])
  }

  lemma {:induction false} ParseDecimalZeros(k: nat)
    ensures ParseDecimal(Zeros(k)) == 0
  {
    if k > 0 {
      assert Zeros(k)[..k - 1] == Zeros(k - 1);
      ParseDecimalZeros(k - 1);
    }
  }

  lemma {:induction false} ParseDecimalLeadingZeros(k: nat, d: string)
    requires AllDigits(d)
    ensures AllDigits(Zeros(k) + d)
    ensures ParseDecimal(Zeros(k) + d) == ParseDecimal(d)
    decreases |d|
  {
    var s := Zeros(k) + d;
    assert AllDigits(s) by {
      forall i | 0 <= i < |s| ensures IsDigit(s[i]) {
        if i >= k { assert s[i] == d[i - k]; }
      }
    }
    if d == [] {
      assert s == Zeros(k);
      ParseDecimalZeros(k);
    } else {
      var d' := d[..|d| - 1];
      assert s[..|s| - 1] == Zeros(k) + d';
      ParseDecimalLeadingZeros(k, d');
    }
  }

  lemma {:induction false} DecimalRoundTrip(n: nat)
    ensures ParseDecimal(Decimal(n)) == n
    decreases n
  {
    if n >= 10 {
      var d := Decimal(n / 10);
      assert (d + [DigitChar(n % 10)])[..|d|] == d;
      DecimalRoundTrip(n / 10);
    } else {
      assert [DigitChar(n)][..0] == [];
    }
  }

  /** Reading a zero-padded number back gives the number: padding never changes the value. */
  lemma ZeroPadRoundTrip(n: nat, w: nat)
    ensures ParseDecimal(ZeroPad(n, w)) == n
  {
    var d := Decimal(n);
    ParseDecimalLeadingZeros(if w > |d| then w - |d| else 0, d);
    DecimalRoundTrip(n);
  }

  /** A positive number never renders as zeros only. */
  lemma ZeroPadHasNonZero(n: nat, w: nat)
    requires 1 <= n
    ensures exists i :: 0 <= i < |ZeroPad(n, w)| && ZeroPad(n, w)[i] != '0'
  {
    var r := ZeroPad(n, w);
    var d := Decimal(n);
    assert r[|r| - |d|] == d[0] != '0';
  }

  /** `"{:01d}".format(1)`, `"{:02d}".format(1)`, `"{:03d}".format(1)`,
      `"{:02d}".format(12)` and `"{:04d}".format(7)`. */
  lemma ZeroPadOneWidth1() ensures ZeroPad(1, 1) == "1" { }

  lemma ZeroPadOneWidth2() ensures ZeroPad(1, 2) == "01" { }

  lemma ZeroPadOneWidth3() ensures ZeroPad(1, 3) == "001" { }

  lemma ZeroPadTwelve()
    ensures ZeroPad(12, 2) == "12"
  {
    assert DigitChar(2) == '2';
  }

  lemma ZeroPadSeven()
    ensures ZeroPad(7, 4) == "0007"
  {
  }
}
