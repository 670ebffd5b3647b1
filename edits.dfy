/**
 * The two positional transforms of the renamer: removing a range of
 * characters (`MainWindow.remove_text`, bulky.py:541-550) and inserting or
 * overwriting text (`MainWindow.insert_text`, bulky.py:552-572).
 *
 * Positions come from spin buttons limited to 1..100 (bulky.py:277-292);
 * indexes are computed with Python's integer arithmetic and applied with
 * Python slicing, which clamps out-of-range bounds and reads negative ones
 * from the end.
 */
module Edits {
  import opened PyStr
  import opened Counter

  /** The "Remove" page: 1-based positions, each optionally counted from the end. */
  datatype RemoveConfig = RemoveConfig(from: int, to: int, fromEnd: bool, toEnd: bool)

  /** The spin ranges of the "Remove" page (bulky.py:277-280). */
  predicate ValidRemove(cfg: RemoveConfig)
  {
    1 <= cfg.from <= 100 && 1 <= cfg.to <= 100
  }

  /** `s` with one contiguous block of characters taken out. */
  ghost predicate DeletesOneBlock(s: string, r: string)
  {
    exists a: nat, b: nat {:trigger s[..a], s[b..]} :: a <= b <= |s| && r == s[..a] + s[b..]
  }

  /** bulky.py:541-550. */
  function RemoveText(cfg: RemoveConfig, s: string): (r: string)
    requires ValidRemove(cfg)
    ensures |r| <= |s|
    ensures DeletesOneBlock(s, r)
  {
    var length := |s| - 1;
    var from := Min(cfg.from - 1, length);
    var to := Min(cfg.to - 1, length);
    var from := if cfg.fromEnd then length - from else from;
    var to := if cfg.toEnd then length - to else to;
    var to := Max(to + 1, from);
    var r := Slice(s, 0, from) + Drop(s, to);
    assert r == s[..0] + s[0..] || (0 <= from <= to <= |s| && r == s[..from] + s[to..]);
    r
  }

  /** With both positions counted from the start, positions `from..to` (1-based,
      inclusive) are removed. */
  lemma RemoveInclusiveRange(cfg: RemoveConfig, s: string)
    requires ValidRemove(cfg) && !cfg.fromEnd && !cfg.toEnd
    requires cfg.from <= cfg.to <= |s|
    ensures RemoveText(cfg, s) == s[..cfg.from - 1] + s[cfg.to..]
  {
  }

  /** A range that runs past the end is cut at the last character. */
  lemma RemovePastEnd(cfg: RemoveConfig, s: string)
    requires ValidRemove(cfg) && !cfg.fromEnd && !cfg.toEnd
    requires cfg.from <= |s| < cfg.to
    ensures RemoveText(cfg, s) == s[..cfg.from - 1]
  {
  }

  /** An inverted range removes nothing. */
  lemma RemoveInverted(cfg: RemoveConfig, s: string)
    requires ValidRemove(cfg) && !cfg.fromEnd && !cfg.toEnd
    requires cfg.to < cfg.from && cfg.to < |s|
    ensures RemoveText(cfg, s) == s
  {
  }

  /** With both positions counted from the end, `to` is the nearer end of the block:
      characters `from` down to `to`, counted from the end, are removed. */
  lemma RemoveFromEnd(cfg: RemoveConfig, s: string)
    requires ValidRemove(cfg) && cfg.fromEnd && cfg.toEnd
    requires cfg.to <= cfg.from <= |s|
    ensures RemoveText(cfg, s) == s[..|s| - cfg.from] + s[|s| - cfg.to + 1..]
  {
  }

  /** With `from` counted from the end and `to` from the start, the block runs from
      `from` characters before the end up to position `to`, and is empty when `to`
      lies before it. */
  lemma RemoveFromEndToStart(cfg: RemoveConfig, s: string)
    requires ValidRemove(cfg) && cfg.fromEnd && !cfg.toEnd
    requires cfg.from <= |s| && cfg.to <= |s|
    ensures RemoveText(cfg, s) == s[..|s| - cfg.from] + s[Max(cfg.to, |s| - cfg.from)..]
  {
  }

  /** With `from` counted from the start and `to` from the end, the block runs from
      position `from` up to `to` characters before the end, and is empty when they
      cross. */
  lemma RemoveFromStartToEnd(cfg: RemoveConfig, s: string)
    requires ValidRemove(cfg) && !cfg.fromEnd && cfg.toEnd
    requires cfg.from <= |s| && cfg.to <= |s|
    ensures RemoveText(cfg, s) == s[..cfg.from - 1] + s[Max(|s| - cfg.to + 1, cfg.from - 1)..]
  {
  }

  /** The empty name stays empty, whatever the positions. */
  lemma RemoveFromEmpty(cfg: RemoveConfig)
    requires ValidRemove(cfg)
    ensures RemoveText(cfg, "") == ""
  {
  }

  lemma RemoveExample()
    ensures RemoveText(RemoveConfig(1, 3, false, false), "abcdef") == "def"
  {
    RemoveInclusiveRange(RemoveConfig(1, 3, false, false), "abcdef");
    assert "abcdef"[3..] == "def";
  }

  /** The "Insert" page: the text, a 1-based position, counted from the start or
      (the "reverse" check) from the end, and whether to overwrite. */
  datatype InsertConfig = InsertConfig(text: string, position: int, fromEnd: bool, overwrite: bool)

  /** The spin range of the "Insert" page (bulky.py:291). */
  predicate ValidInsert(cfg: InsertConfig)
  {
    1 <= cfg.position <= 100
  }

  /** bulky.py:552-572, as written. */
  function InsertTextAsWritten(cfg: InsertConfig, index: nat, s: string): (r: string)
    requires ValidInsert(cfg)
  {
    var text := Inject(index, cfg.text);
    var length := |s| - 1;
    var from := cfg.position - 1;
    if from >= length then
      if cfg.fromEnd then text + s else s + text
    else
      var from := if cfg.fromEnd then length - from + 1 else from;
      if cfg.overwrite then
        if |text| >= length then text
        else Slice(s, 0, from) + text + Drop(s, from + |text|)
      else Slice(s, 0, from) + text + Drop(s, from)
  }

  /** As written: at or past the last position, the text is appended (or prepended
      from the end), whether or not overwriting is on. */
  lemma AsWrittenAppendsPastEnd(cfg: InsertConfig, index: nat, s: string)
    requires ValidInsert(cfg) && cfg.position - 1 >= |s| - 1
    ensures InsertTextAsWritten(cfg, index, s)
            == if cfg.fromEnd then Inject(index, cfg.text) + s else s + Inject(index, cfg.text)
  {
  }

  /** As written: overwriting with a text at least `len(s) - 1` long yields the text alone. */
  lemma AsWrittenOverwriteLongText(cfg: InsertConfig, index: nat, s: string)
    requires ValidInsert(cfg) && cfg.overwrite && cfg.position - 1 < |s| - 1
    requires |Inject(index, cfg.text)| >= |s| - 1
    ensures InsertTextAsWritten(cfg, index, s) == Inject(index, cfg.text)
  {
  }

  /** As written, "abcdef" overwritten at position 4 with "XYZWV" loses its prefix "abc". */
  lemma AsWrittenOverwriteDropsPrefix()
    ensures InsertTextAsWritten(InsertConfig("XYZWV", 4, false, true), 1, "abcdef") == "XYZWV"
    ensures InsertText(InsertConfig("XYZWV", 4, false, true), 1, "abcdef") == "abcXYZWV"
  {
    InjectWithoutPercent(1, "XYZWV");
    OverwriteExample();
  }

  lemma OverwriteExample()
    requires Inject(1, "XYZWV") == "XYZWV"
    ensures InsertText(InsertConfig("XYZWV", 4, false, true), 1, "abcdef") == "abcXYZWV"
  {
    var cfg := InsertConfig("XYZWV", 4, false, true);
    assert InsertionPoint(cfg, 6) == 3 && Overwrites(cfg, 6);
    SpliceExample();
  }

  lemma SpliceExample()
    ensures Splice("abcdef", 3, "XYZWV", true) == "abcXYZWV"
  {
    var r := Splice("abcdef", 3, "XYZWV", true);
    assert |r| == 8 && r[..3] == "abcdef"[..3] == "abc" && r[3..8] == "XYZWV";
    assert r == r[..3] + r[3..8];
  }

  /** As written, position 3 on "abc" appends (the same as position 4), and from the end
      it prepends (the same as position 4): the slot before the last character, and
      from the end the slot after the first one, cannot be reached. */
  lemma AsWrittenSkipsSlot()
    ensures InsertTextAsWritten(InsertConfig("X", 3, false, false), 1, "abc") == "abcX"
    ensures InsertTextAsWritten(InsertConfig("X", 4, false, false), 1, "abc") == "abcX"
    ensures InsertTextAsWritten(InsertConfig("X", 3, true, false), 1, "abc") == "Xabc"
    ensures InsertText(InsertConfig("X", 3, false, false), 1, "abc") == "abXc"
    ensures InsertText(InsertConfig("X", 3, true, false), 1, "abc") == "aXbc"
  {
    InjectWithoutPercent(1, "X");
    SlotExample();
  }

  lemma SlotExample()
    requires Inject(1, "X") == "X"
    ensures InsertText(InsertConfig("X", 3, false, false), 1, "abc") == "abXc"
    ensures InsertText(InsertConfig("X", 3, true, false), 1, "abc") == "aXbc"
  {
    assert "abc"[..2] == "ab" && "abc"[2..] == "c";
    assert "abc"[..1] == "a" && "abc"[1..] == "bc";
  }

  /** Where `InsertText` puts the text: from the start, position `k` leaves `k - 1`
      characters before it; from the end, `k - 1` characters after it; a position
      past the end appends (from the start) or prepends (from the end). */
  function InsertionPoint(cfg: InsertConfig, n: nat): (p: nat)
    requires ValidInsert(cfg)
    ensures p <= n
    ensures !cfg.fromEnd ==> p == Min(cfg.position - 1, n)
    ensures cfg.fromEnd ==> n - p == Min(cfg.position - 1, n)
  {
    var from := cfg.position - 1;
    if from >= n then (if cfg.fromEnd then 0 else n)
    else if cfg.fromEnd then n - from else from
  }

  /** Whether `InsertText` overwrites: only with the option on and a position inside
      the name; appending or prepending past the end never overwrites. */
  predicate Overwrites(cfg: InsertConfig, n: nat)
  {
    cfg.overwrite && cfg.position - 1 < n
  }

  /** `r` is `s` with `t` placed at index `p`, either pushed in or written over what
      follows: the characters before `p` are kept, `t` comes next, and then the rest
      of `s` (without the overwritten characters). */
  predicate Spliced(s: string, p: nat, t: string, overwrite: bool, r: string)
  {
    && p <= |s|
    && |r| == (if overwrite then Max(|s|, p + |t|) else |s| + |t|)
    && r[..p] == s[..p]
    && r[p..p + |t|] == t
    && r[p + |t|..] == (if overwrite then Drop(s, p + |t|) else s[p..])
  }

  function Splice(s: string, p: nat, t: string, overwrite: bool): (r: string)
    requires p <= |s|
    ensures Spliced(s, p, t, overwrite, r)
  {
    var tail := if overwrite then Drop(s, p + |t|) else s[p..];
    var r := s[..p] + t + tail;
    assert r[..p] == s[..p] && r[p..p + |t|] == t && r[p + |t|..] == tail;
    r
  }

  /** bulky.py:552-572 with the two defects corrected (see the Findings of the README):
      the append branch is taken from `len(s)` on, not `len(s) - 1`, and overwriting
      always keeps the characters before the insertion point. */
  function InsertText(cfg: InsertConfig, index: nat, s: string): (r: string)
    requires ValidInsert(cfg)
    ensures Spliced(s, InsertionPoint(cfg, |s|), Inject(index, cfg.text), Overwrites(cfg, |s|), r)
  {
    Splice(s, InsertionPoint(cfg, |s|), Inject(index, cfg.text), Overwrites(cfg, |s|))
  }

  /** Inserting keeps every character of the name: taking the inserted text back out
      gives the name again. */
  lemma InsertThenRemove(cfg: InsertConfig, index: nat, s: string)
    requires ValidInsert(cfg) && !cfg.overwrite
    ensures var r, t, p := InsertText(cfg, index, s), Inject(index, cfg.text), InsertionPoint(cfg, |s|);
      r[..p] + r[p + |t|..] == s
  {
    var r, t, p := InsertText(cfg, index, s), Inject(index, cfg.text), InsertionPoint(cfg, |s|);
    assert s == s[..p] + s[p..];
  }

  /** Overwriting inside the name keeps its length; running past the end grows it to
      exactly the end of the text. */
  lemma OverwriteLength(cfg: InsertConfig, index: nat, s: string)
    requires ValidInsert(cfg) && Overwrites(cfg, |s|)
    ensures var p, t := InsertionPoint(cfg, |s|), Inject(index, cfg.text);
      |InsertText(cfg, index, s)| == if p + |t| <= |s| then |s| else p + |t|
  {
  }

  /** Where the two definitions agree: past the end, and at a position before the last
      character when inserting, or when overwriting with a text shorter than `len(s) - 1`. */
  lemma InsertAgreesAsWritten(cfg: InsertConfig, index: nat, s: string)
    requires ValidInsert(cfg)
    requires cfg.position > |s| ||
             (cfg.position < |s| && (!cfg.overwrite || |Inject(index, cfg.text)| < |s| - 1))
    ensures InsertText(cfg, index, s) == InsertTextAsWritten(cfg, index, s)
  {
  }

  lemma InsertExample()
    ensures InsertText(InsertConfig("X", 10, false, false), 1, "ab") == "abX"
    ensures InsertTextAsWritten(InsertConfig("X", 10, false, false), 1, "ab") == "abX"
  {
    InjectWithoutPercent(1, "X");
  }

  /** Inserting nothing, without overwriting, changes no name. */
  lemma InsertNothing(cfg: InsertConfig, index: nat, s: string)
    requires ValidInsert(cfg) && cfg.text == "" && !cfg.overwrite
    ensures InsertText(cfg, index, s) == s
  {
    InjectWithoutPercent(index, "");
    InsertThenRemove(cfg, index, s);
    var r := InsertText(cfg, index, s);
    var p := InsertionPoint(cfg, |s|);
    assert r == r[..p] + r[p..];
  }
}
