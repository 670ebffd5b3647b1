/**
 * Sequence-number injection (`MainWindow.inject`, bulky.py:584-589): the
 * tokens `%n`, `%0n`, `%00n` and `%000n` in a replacement or insertion text
 * become the 1-based entry index, zero-padded to widths 1, 2, 3 and 4.
 *
 * The source does this with four chained `str.replace` calls. `Expand` is an
 * independent single left-to-right pass over the text; `InjectIsExpand` proves
 * the two agree for every positive index, so the chained replaces never
 * create or destroy a token behind each other's back.
 */
module Counter {
  import opened PyStr

  /** The token of width `k`: `%`, then `k - 1` zeros, then `n`. */
  function Token(k: nat): (t: string)
    requires 1 <= k
    ensures |t| == k + 1 && t[0] == '%' && t[k] == 'n'
    ensures forall i :: 1 <= i < k ==> t[i] == '0'
  {
    ['%'] + Zeros(k - 1) + ['n']
  }

  /** What the token of width `k` becomes for entry `index`. */
  function Counter(index: nat, k: nat): string
  {
    ZeroPad(index, k)
  }

  /** bulky.py:584-589, as written: four chained replaces, shortest token first. */
  function Inject(index: nat, s: string): string
  {
    var s1 := Replace(s, Token(1), Counter(index, 1));
    var s2 := Replace(s1, Token(2), Counter(index, 2));
    var s3 := Replace(s2, Token(3), Counter(index, 3));
    Replace(s3, Token(4), Counter(index, 4))
  }

  /** The number of characters of `t` before its first non-`0`. */
  function LeadingZeros(t: string): (z: nat)
    ensures z <= |t|
    ensures forall i :: 0 <= i < z ==> t[i] == '0'
    ensures z < |t| ==> t[z] != '0'
  {
    if t != [] && t[0] == '0' then 1 + LeadingZeros(t[1..]) else 0
  }

  /** The width of the `%0…0n` token `s` starts with, or 0 when it starts with none.
      The width is not bounded here: `%0000n` has width 5. */
  function TokenWidth(s: string): (j: nat)
    ensures j == 0 || j + 1 <= |s|
  {
    if |s| >= 2 && s[0] == '%' then
      var z := LeadingZeros(s[1..]);
      if 1 + z < |s| && s[1 + z] == 'n' then z + 1 else 0
    else 0
  }

  lemma {:induction false} LeadingZerosExact(t: string, m: nat)
    requires m < |t| && t[m] != '0'
    requires forall i :: 0 <= i < m ==> t[i] == '0'
    ensures LeadingZeros(t) == m
    decreases m
  {
    if m > 0 {
      LeadingZerosExact(t[1..], m - 1);
    }
  }

  /** `TokenWidth` finds exactly the token that is a prefix of `s`. */
  lemma TokenWidthIsPrefix(s: string, k: nat)
    requires 1 <= k
    ensures TokenWidth(s) == k <==> Token(k) <= s
  {
    var t := Token(k);
    if t <= s {
      assert s[1..][k - 1] == s[k] == 'n';
      assert forall i :: 0 <= i < k - 1 ==> s[1..][i] == t[i + 1];
      LeadingZerosExact(s[1..], k - 1);
    }
    if TokenWidth(s) == k {
      assert forall i :: 0 <= i < |t| ==> t[i] == s[i] by {
        forall i | 0 <= i < |t| ensures t[i] == s[i] {
          if 1 <= i < k { assert s[1..][i - 1] == '0'; }
        }
      }
    }
  }

  /** Unfolds one step of the single-pass expansion. */
  lemma ExpandStep(k: nat, index: nat, s: string)
    requires s != []
    ensures 1 <= TokenWidth(s) <= k ==>
      ExpandUpTo(k, index, s) == Counter(index, TokenWidth(s)) + ExpandUpTo(k, index, s[TokenWidth(s) + 1..])
    ensures !(1 <= TokenWidth(s) <= k) ==>
      ExpandUpTo(k, index, s) == [s[0]] + ExpandUpTo(k, index, s[1..])
  {
  }

  /** Single-pass expansion of the tokens of width 1 to `k` (`k = 0`: none). */
  function ExpandUpTo(k: nat, index: nat, s: string): string
    decreases |s|
  {
    if s == [] then []
    else
      var j := TokenWidth(s);
      if 1 <= j <= k then Counter(index, j) + ExpandUpTo(k, index, s[j + 1..])
      else [s[0]] + ExpandUpTo(k, index, s[1..])
  }

  /** The reference definition: every `%n`, `%0n`, `%00n`, `%000n` read left to right
      becomes the padded counter; every other character, `%` included, is copied. */
  function Expand(index: nat, s: string): string
  {
    ExpandUpTo(4, index, s)
  }

  /** Characters that cannot start a token pass through the expansion. */
  lemma {:induction false} ExpandKeepsPrefix(k: nat, index: nat, t: string, x: string)
    requires '%' !in t
    ensures ExpandUpTo(k, index, t + x) == t + ExpandUpTo(k, index, x)
    decreases |t|
  {
    if t == [] {
      assert t + x == x;
    } else {
      var c, u := t[0], t[1..];
      assert t + x == [c] + (u + x);
      ExpandCopies(k, index, c, u + x);
      ExpandKeepsPrefix(k, index, u, x);
      var r := ExpandUpTo(k, index, x);
      assert [c] + (u + r) == ([c] + u) + r;
      assert [c] + u == t;
    }
  }

  /** A character other than `%` is copied by the expansion. */
  lemma ExpandCopies(k: nat, index: nat, c: char, rest: string)
    requires c != '%'
    ensures ExpandUpTo(k, index, [c] + rest) == [c] + ExpandUpTo(k, index, rest)
  {
    var s := [c] + rest;
    assert TokenWidth(s) == 0;
    ExpandStep(k, index, s);
    assert s[1..] == rest;
  }

  /** Expanding no token at all is the identity. */
  lemma {:induction false} ExpandNothing(index: nat, s: string)
    ensures ExpandUpTo(0, index, s) == s
    decreases |s|
  {
    if s != [] {
      ExpandNothing(index, s[1..]);
      assert [s[0]] + s[1..] == s;
    }
  }

  /** Text that starts with a counter never starts with `0…0n`: a counter has no `n`
      and is not all zeros. */
  lemma CounterBreaksZeroRun(index: nat, j: nat, m: nat, x: string)
    requires 1 <= index
    ensures !(Zeros(m) + ['n'] <= Counter(index, j) + x)
  {
    var c, w := Counter(index, j), Zeros(m) + ['n'];
    if |c| <= m {
      ZeroPadHasNonZero(index, j);
      var i :| 0 <= i < |c| && c[i] != '0';
      assert (c + x)[i] == c[i] != w[i];
    } else {
      assert (c + x)[m] == c[m] != 'n' == w[m];
    }
  }

  /** An expansion that starts with a counter does not start with `0…0n`. */
  lemma ExpansionOfTokenBreaksZeroRun(k: nat, index: nat, m: nat, y: string)
    requires 1 <= index && y != [] && 1 <= TokenWidth(y) <= k
    ensures !(Zeros(m) + ['n'] <= ExpandUpTo(k, index, y))
  {
    var j := TokenWidth(y);
    ExpandStep(k, index, y);
    CounterBreaksZeroRun(index, j, m, ExpandUpTo(k, index, y[j + 1..]));
  }

  /** A counter is made of digits and has at least one that is not `0`, so it can
      never be read as part of a run of zeros closed by `n`. Hence if an expansion
      starts with `0…0n`, the text it came from already did. */
  lemma {:induction false} ExpandZeroRun(k: nat, index: nat, m: nat, y: string)
    requires 1 <= index
    requires Zeros(m) + ['n'] <= ExpandUpTo(k, index, y)
    ensures Zeros(m) + ['n'] <= y
    decreases |y|, 1
  {
    assert (Zeros(m) + ['n'])[m] == 'n';
    assert y != [];
    ExpandStep(k, index, y);
    if 1 <= TokenWidth(y) <= k {
      ExpansionOfTokenBreaksZeroRun(k, index, m, y);
      assert false;
    } else {
      ZeroRunThroughCopy(k, index, m, y);
    }
  }

  /** The case of `ExpandZeroRun` where the first character was copied. */
  lemma {:induction false} ZeroRunThroughCopy(k: nat, index: nat, m: nat, y: string)
    requires 1 <= index && y != []
    requires Zeros(m) + ['n'] <= [y[0]] + ExpandUpTo(k, index, y[1..])
    ensures Zeros(m) + ['n'] <= y
    decreases |y|, 0
  {
    var rest := ExpandUpTo(k, index, y[1..]);
    if m == 0 {
      ConsPrefix('n', [], y[0], rest);
      ConsPrefix('n', [], y[0], y[1..]);
    } else {
      var v := Zeros(m - 1) + ['n'];
      assert Zeros(m) + ['n'] == ['0'] + v;
      ConsPrefix('0', v, y[0], rest);
      ExpandZeroRun(k, index, m - 1, y[1..]);
      ConsPrefix('0', v, y[0], y[1..]);
    }
    assert [y[0]] + y[1..] == y;
  }

  /** Replacing after a narrower token was expanded: the counter is kept as it is. */
  lemma ReplaceAfterNarrower(k: nat, index: nat, s: string)
    requires 1 <= k && s != [] && 1 <= TokenWidth(s) <= k - 1
    ensures Replace(ExpandUpTo(k - 1, index, s), Token(k), Counter(index, k))
            == Counter(index, TokenWidth(s))
               + Replace(ExpandUpTo(k - 1, index, s[TokenWidth(s) + 1..]), Token(k), Counter(index, k))
  {
    ExpandStep(k - 1, index, s);
    var j := TokenWidth(s);
    ReplaceKeepsPrefix(Counter(index, j), ExpandUpTo(k - 1, index, s[j + 1..]), Token(k), Counter(index, k));
  }

  /** A token wider than `k` passes through the pass over widths up to `k`. */
  lemma ExpandWiderToken(k: nat, index: nat, w: nat, rest: string)
    requires k < w
    ensures ExpandUpTo(k, index, Token(w) + rest) == Token(w) + ExpandUpTo(k, index, rest)
  {
    var s := Token(w) + rest;
    TokenWidthIsPrefix(s, w);
    assert !(1 <= TokenWidth(s) <= k);
    ExpandStep(k, index, s);
    var mid := Zeros(w - 1) + ['n'];
    assert s[1..] == mid + rest;
    ExpandKeepsPrefix(k, index, mid, rest);
    var r := ExpandUpTo(k, index, rest);
    assert ExpandUpTo(k, index, s) == ['%'] + (mid + r);
    assert ['%'] + (mid + r) == (['%'] + mid) + r;
    assert ['%'] + mid == Token(w);
  }

  /** The width-`k` token survives the narrower pass untouched and is then replaced. */
  lemma ReplaceAfterSame(k: nat, index: nat, s: string)
    requires 1 <= k && s != [] && TokenWidth(s) == k
    ensures Replace(ExpandUpTo(k - 1, index, s), Token(k), Counter(index, k))
            == Counter(index, k) + Replace(ExpandUpTo(k - 1, index, s[k + 1..]), Token(k), Counter(index, k))
  {
    TokenWidthIsPrefix(s, k);
    var rest := s[k + 1..];
    assert s == Token(k) + rest;
    ExpandWiderToken(k - 1, index, k, rest);
    ReplaceAtStart(ExpandUpTo(k - 1, index, rest), Token(k), Counter(index, k));
  }

  /** After copying a character that starts no token of width 1 to `k`, the narrower
      pass cannot have produced the width-`k` token at that position. */
  lemma NoTokenAfterOther(k: nat, index: nat, s: string)
    requires 1 <= k && 1 <= index && s != []
    requires !(1 <= TokenWidth(s) <= k)
    ensures !(Token(k) <= [s[0]] + ExpandUpTo(k - 1, index, s[1..]))
  {
    var tok, w := Token(k), Zeros(k - 1) + ['n'];
    var tail := ExpandUpTo(k - 1, index, s[1..]);
    assert tok == ['%'] + w;
    ConsPrefix('%', w, s[0], tail);
    if tok <= [s[0]] + tail {
      ExpandZeroRun(k - 1, index, k - 1, s[1..]);
      ConsPrefix('%', w, s[0], s[1..]);
      assert [s[0]] + s[1..] == s;
      TokenWidthIsPrefix(s, k);
      assert false;
    }
  }

  /** Any other character is copied, and no width-`k` token can start at it. */
  lemma ReplaceAfterOther(k: nat, index: nat, s: string)
    requires 1 <= k && 1 <= index && s != []
    requires !(1 <= TokenWidth(s) <= k)
    ensures Replace(ExpandUpTo(k - 1, index, s), Token(k), Counter(index, k))
            == [s[0]] + Replace(ExpandUpTo(k - 1, index, s[1..]), Token(k), Counter(index, k))
  {
    ExpandStep(k - 1, index, s);
    NoTokenAfterOther(k, index, s);
    ReplaceNoMatchStart(s[0], ExpandUpTo(k - 1, index, s[1..]), Token(k), Counter(index, k));
  }

  /** One step of the chain: replacing the width-`k` token after a single pass over the
      narrower ones is a single pass over all tokens up to width `k`. */
  lemma {:induction false} ReplaceAfterExpand(k: nat, index: nat, s: string)
    requires 1 <= k && 1 <= index
    ensures Replace(ExpandUpTo(k - 1, index, s), Token(k), Counter(index, k))
            == ExpandUpTo(k, index, s)
    decreases |s|
  {
    if s != [] {
      var j := TokenWidth(s);
      ExpandStep(k, index, s);
      if 1 <= j <= k - 1 {
        ReplaceAfterNarrower(k, index, s);
        ReplaceAfterExpand(k, index, s[j + 1..]);
        assert ExpandUpTo(k, index, s) == Counter(index, j) + ExpandUpTo(k, index, s[j + 1..]);
      } else if j == k {
        ReplaceAfterSame(k, index, s);
        ReplaceAfterExpand(k, index, s[k + 1..]);
        assert ExpandUpTo(k, index, s) == Counter(index, k) + ExpandUpTo(k, index, s[k + 1..]);
      } else {
        ReplaceAfterOther(k, index, s);
        ReplaceAfterExpand(k, index, s[1..]);
        assert ExpandUpTo(k, index, s) == [s[0]] + ExpandUpTo(k, index, s[1..]);
      }
    } else {
      assert ExpandUpTo(k - 1, index, s) == [];
    }
  }

  /** The chained replaces of the source compute the single-pass expansion. */
  lemma InjectIsExpand(index: nat, s: string)
    requires 1 <= index
    ensures Inject(index, s) == Expand(index, s)
  {
    ExpandNothing(index, s);
    ReplaceAfterExpand(1, index, s);
    ReplaceAfterExpand(2, index, s);
    ReplaceAfterExpand(3, index, s);
    ReplaceAfterExpand(4, index, s);
  }

  /** Each of the four tokens on its own becomes the counter padded to its width. */
  lemma InjectToken(index: nat, k: nat)
    requires 1 <= index && 1 <= k <= 4
    ensures Inject(index, Token(k)) == ZeroPad(index, k)
    ensures |Inject(index, Token(k))| == Max(k, |Decimal(index)|)
  {
    InjectIsExpand(index, Token(k));
    TokenWidthIsPrefix(Token(k), k);
    assert Token(k)[k + 1..] == [];
  }

  /** Text without `%` is returned unchanged. */
  lemma InjectWithoutPercent(index: nat, s: string)
    requires '%' !in s
    ensures Inject(index, s) == s
  {
    ReplaceAbsent(s, Token(1), Counter(index, 1));
    ReplaceAbsent(s, Token(2), Counter(index, 2));
    ReplaceAbsent(s, Token(3), Counter(index, 3));
    ReplaceAbsent(s, Token(4), Counter(index, 4));
  }

  /** A `%` that does not start one of the four tokens (for instance `%x`, or `%0000n`
      with four zeros) is copied verbatim, and injection carries on after it. */
  lemma InjectKeepsOtherPercent(index: nat, s: string)
    requires 1 <= index && s != [] && s[0] == '%'
    requires TokenWidth(s) == 0 || TokenWidth(s) > 4
    ensures Inject(index, s) == ['%'] + Inject(index, s[1..])
  {
    InjectIsExpand(index, s);
    InjectIsExpand(index, s[1..]);
  }

  /** A token followed by more text: the counter, then the injected rest. */
  lemma InjectTokenThen(index: nat, k: nat, rest: string)
    requires 1 <= index && 1 <= k <= 4
    ensures Inject(index, Token(k) + rest) == ZeroPad(index, k) + Inject(index, rest)
  {
    var s := Token(k) + rest;
    InjectIsExpand(index, s);
    InjectIsExpand(index, rest);
    TokenWidthIsPrefix(s, k);
    assert s[k + 1..] == rest;
  }

  /** The examples of the tool's tooltip ("Use %n, %0n, %00n, %000n to enumerate"). */
  lemma InjectExamples()
    ensures Inject(1, "%n") == "1"
    ensures Inject(1, "%0n") == "01"
    ensures Inject(12, "%0n") == "12"
    ensures Inject(1, "%00n") == "001"
    ensures Inject(7, "%000n") == "0007"
  {
    InjectExample1();
    InjectExample2();
    InjectExample3();
    InjectExample4();
    InjectExample5();
  }

  lemma InjectExample1() ensures Inject(1, "%n") == "1"
  {
    TokenLiteral(1, "%n");
    ZeroPadOneWidth1();
    InjectToken(1, 1);
  }

  lemma InjectExample2() ensures Inject(1, "%0n") == "01"
  {
    TokenLiteral(2, "%0n");
    ZeroPadOneWidth2();
    InjectToken(1, 2);
  }

  lemma InjectExample3() ensures Inject(12, "%0n") == "12"
  {
    TokenLiteral(2, "%0n");
    ZeroPadTwelve();
    InjectToken(12, 2);
  }

  lemma InjectExample4() ensures Inject(1, "%00n") == "001"
  {
    TokenLiteral(3, "%00n");
    ZeroPadOneWidth3();
    InjectToken(1, 3);
  }

  lemma InjectExample5() ensures Inject(7, "%000n") == "0007"
  {
    TokenLiteral(4, "%000n");
    ZeroPadSeven();
    InjectToken(7, 4);
  }

  /** A token written out: `%`, then `k - 1` zeros, then `n`. */
  lemma TokenLiteral(k: nat, t: string)
    requires 1 <= k && |t| == k + 1 && t[0] == '%' && t[k] == 'n'
    requires forall i :: 1 <= i < k ==> t[i] == '0'
    ensures Token(k) == t
  {
  }
}
