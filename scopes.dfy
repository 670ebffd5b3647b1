/**
 * How a name is cut into stem and extension, transformed according to the
 * scope, and put back together (bulky.py:482-492). The cut is Python's
 * `os.path.splitext` on POSIX: the extension starts at the last dot of the
 * last path component, unless everything before that dot in the component
 * is dots.
 */
module Scopes {
  import opened Wrappers

  /** SCOPE_NAME_ONLY, SCOPE_EXTENSION_ONLY and SCOPE_ALL (bulky.py:30-32). */
  datatype Scope = NameOnly | ExtensionOnly | All

  /** `s.rfind(c)`: the last index of `c`, or -1. */
  function RFind(s: string, c: char): (k: int)
    ensures -1 <= k < |s|
    ensures k >= 0 ==> s[k] == c
    ensures forall i :: k < i < |s| ==> s[i] != c
  {
    if s == [] then -1
    else if s[|s| - 1] == c then |s| - 1
    else RFind(s[..|s| - 1], c)
  }

  lemma {:induction false} RFindAt(s: string, c: char, k: int)
    requires -1 <= k < |s| && (k >= 0 ==> s[k] == c)
    requires forall i :: k < i < |s| ==> s[i] != c
    ensures RFind(s, c) == k
    decreases |s|
  {
    if s != [] && s[|s| - 1] != c {
      RFindAt(s[..|s| - 1], c, k);
    }
  }

  /** Some character of `s[a..b]` is not a dot. */
  predicate HasNonDot(s: string, a: int, b: int)
    requires 0 <= a && b <= |s|
  {
    exists k :: a <= k < b && s[k] != '.'
  }

  /** `os.path.splitext(p)` */
  function SplitExt(p: string): (parts: (string, string))
    ensures parts.0 + parts.1 == p
    ensures parts.1 == [] || (parts.1[0] == '.' && '.' !in parts.1[1..] && '/' !in parts.1)
  {
    var sep := RFind(p, '/');
    var dot := RFind(p, '.');
    if dot > sep && HasNonDot(p, sep + 1, dot) then
      assert p[..dot] + p[dot..] == p;
      assert forall i :: 0 <= i < |p| - dot - 1 ==> p[dot..][1..][i] == p[dot + 1 + i];
      (p[..dot], p[dot..])
    else
      assert p + [] == p;
      (p, [])
  }

  /** The stem and the extension without its dot (bulky.py:482-484). */
  function Split(name: string): (parts: (string, string))
    ensures '.' !in parts.1 && '/' !in parts.1
  {
    var (root, ext) := SplitExt(name);
    if ext != [] && ext[0] == '.' then (root, ext[1..]) else (root, ext)
  }

  /** bulky.py:491: the dot comes back only with a non-empty extension. */
  function Join(stem: string, ext: string): (name: string)
    ensures ext == [] ==> name == stem
    ensures ext != [] ==> name == stem + ['.'] + ext
  {
    stem + (if ext != [] then "." else "") + ext
  }

  /** The name transform, for one entry's counter value: `Err` is an exception. */
  type Transform = (nat, string) -> Result<string, string>

  /** bulky.py:482-491: the new name of an entry, or the exception the transform
      raised. With scope All the stem and the extension are transformed separately. */
  function Propose(scope: Scope, f: Transform, index: nat, name: string): (r: Result<string, string>)
    ensures var (stem, ext) := Split(name);
      && (scope == NameOnly ==> r == (if f(index, stem).Ok? then Ok(Join(f(index, stem).value, ext)) else f(index, stem)))
      && (scope == ExtensionOnly ==> r == (if f(index, ext).Ok? then Ok(Join(stem, f(index, ext).value)) else f(index, ext)))
      && (scope == All ==> (r.Ok? <==> f(index, stem).Ok? && f(index, ext).Ok?))
      && (scope == All && r.Ok? ==> r.value == Join(f(index, stem).value, f(index, ext).value))
  {
    var (stem, ext) := Split(name);
    match scope
    case NameOnly =>
      (match f(index, stem)
       case Ok(s) => Ok(Join(s, ext))
       case Err(e) => Err(e))
    case ExtensionOnly =>
      (match f(index, ext)
       case Ok(e) => Ok(Join(stem, e))
       case Err(e) => Err(e))
    case All =>
      (match f(index, stem)
       case Err(e) => Err(e)
       case Ok(s) =>
         match f(index, ext)
         case Ok(e) => Ok(Join(s, e))
         case Err(e) => Err(e))
  }

  /** A name whose last path component ends in a dot that `splitext` treats as an
      empty extension: "notes." but not "..." or "a/.". */
  predicate EndsInBareDot(name: string)
  {
    |name| > 0 && name[|name| - 1] == '.' && HasNonDot(name, RFind(name, '/') + 1, |name| - 1)
  }

  /** Cutting a name and joining the parts gives the name back, except for a bare
      trailing dot, which the join drops. */
  lemma JoinSplit(name: string)
    ensures Join(Split(name).0, Split(name).1) == name <==> !EndsInBareDot(name)
  {
    var sep := RFind(name, '/');
    var dot := RFind(name, '.');
    if EndsInBareDot(name) {
      assert dot == |name| - 1;
      assert sep < dot by { assert name[dot] != '/'; }
      assert name[dot..] == ".";
      assert SplitExt(name) == (name[..dot], ".");
      assert |Join(Split(name).0, Split(name).1)| < |name|;
    } else {
      var (root, ext) := SplitExt(name);
      if ext != [] {
        assert ext != ".";
        assert ext == ['.'] + ext[1..];
      }
    }
  }

  /** The identity transform. */
  function Identity(index: nat, s: string): Result<string, string> { Ok(s) }

  /** An identity transform keeps every name, in every scope, except one ending in a
      bare dot. */
  lemma IdentityKeepsName(scope: Scope, index: nat, name: string)
    ensures Propose(scope, Identity, index, name) == Ok(name) <==> !EndsInBareDot(name)
  {
    JoinSplit(name);
  }

  /** A stem with something besides dots, joined with a non-empty extension, cuts
      back into the same two parts. */
  lemma SplitJoin(stem: string, ext: string)
    requires ext != [] && '.' !in ext && '/' !in ext
    requires '/' !in stem && HasNonDot(stem, 0, |stem|)
    ensures Split(Join(stem, ext)) == (stem, ext)
  {
    var p := Join(stem, ext);
    var dot := |stem|;
    assert p[dot] == '.';
    assert forall i :: dot < i < |p| ==> p[i] == ext[i - dot - 1];
    assert forall i :: dot < i < |p| ==> p[i] != '.';
    RFindAt(p, '.', dot);
    assert forall i :: 0 <= i < dot ==> p[i] == stem[i];
    assert forall i :: 0 <= i < |p| ==> p[i] != '/';
    RFindAt(p, '/', -1);
    var w :| 0 <= w < |stem| && stem[w] != '.';
    assert p[w] == stem[w];
    assert p[..dot] == stem;
    assert p[dot..][1..] == ext;
  }

  /** With scope NameOnly, a transform that leaves some non-dot character in the stem
      keeps the extension of a name that has one. */
  lemma NameOnlyKeepsExtension(f: Transform, index: nat, name: string)
    requires Split(name).1 != [] && '/' !in name
    requires f(index, Split(name).0).Ok?
    requires var t := f(index, Split(name).0).value; '/' !in t && HasNonDot(t, 0, |t|)
    ensures Propose(NameOnly, f, index, name).Ok?
    ensures Split(Propose(NameOnly, f, index, name).value).1 == Split(name).1
  {
    var (stem, ext) := Split(name);
    assert name == SplitExt(name).0 + SplitExt(name).1;
    SplitJoin(f(index, stem).value, ext);
  }

  lemma SplitExample()
    ensures Split("report.tar.gz") == ("report.tar", "gz")
    ensures Split(".bashrc") == (".bashrc", "")
  {
    var p := "report.tar.gz";
    assert forall i :: 0 <= i < |p| ==> p[i] != '/';
    assert forall i :: 10 < i < |p| ==> p[i] != '.';
    RFindAt(p, '/', -1);
    RFindAt(p, '.', 10);
    assert p[0] != '.';
    assert p[..10] == "report.tar" && p[10..][1..] == "gz";
    var q := ".bashrc";
    assert forall i :: 0 <= i < |q| ==> q[i] != '/';
    assert forall i :: 0 < i < |q| ==> q[i] != '.';
    RFindAt(q, '/', -1);
    RFindAt(q, '.', 0);
  }
}
