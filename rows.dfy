/**
 * The file list of the main window and the list of loaded URIs beside it
 * (`MainWindow.model` and `MainWindow.uris`, bulky.py:164-175, 245), with the
 * filesystem answers the renamer needs. This module states what adding,
 * removing and renaming do to both lists; the `MainWindow` class performs
 * them step by step.
 */
module Rows {
  import opened Wrappers

  type Uri = string

  /** One row of the list: the file's URI and the "Name" and "New name" columns
      (bulky.py:29, 245). */
  datatype Row = Row(uri: Uri, name: string, newName: string)

  /** What the renamer asks of the filesystem through Gio (bulky.py:65-143):
      the URI a file would have under a new name (`get_pending_uri`), whether its
      directory and the file itself can be written, and the outcome of a rename
      (the new URI, or `None` when `set_display_name` raises). */
  datatype FileSystem = FileSystem(
    pendingUri: (Uri, string) -> Uri,
    parentWritable: Uri -> bool,
    writable: Uri -> bool,
    rename: (Uri, string) -> Option<Uri>)

  function RowUris(rows: seq<Row>): (us: seq<Uri>)
    ensures |us| == |rows|
  {
    seq(|rows|, i requires 0 <= i < |rows| => rows[i].uri)
  }

  predicate NoDuplicates(us: seq<Uri>)
  {
    forall i, j :: 0 <= i < j < |us| ==> us[i] != us[j]
  }

  /** The loaded URIs are exactly the URIs of the rows, counted with repetition. */
  ghost predicate Matches(uris: seq<Uri>, rows: seq<Row>)
  {
    multiset(uris) == multiset(RowUris(rows))
  }

  /** `list.remove(x)`: the first occurrence of `x` taken out. */
  function RemoveFirst(s: seq<Uri>, x: Uri): (r: seq<Uri>)
    ensures x in s ==> multiset(r) == multiset(s) - multiset{x}
    ensures x !in s ==> r == s
  {
    if s == [] then []
    else
      assert s == [s[0]] + s[1..];
      assert multiset(s) == multiset{s[0]} + multiset(s[1..]);
      if s[0] == x then s[1..]
      else
        var r := RemoveFirst(s[1..], x);
        assert multiset([s[0]] + r) == multiset{s[0]} + multiset(r);
        assert x in s ==> x in s[1..];
        [s[0]] + r
  }

  /** In a list without duplicates, `remove` takes out exactly `x`. */
  lemma RemoveFirstDistinct(s: seq<Uri>, x: Uri)
    requires NoDuplicates(s)
    ensures NoDuplicates(RemoveFirst(s, x))
    ensures forall y :: y in RemoveFirst(s, x) <==> y in s && y != x
  {
    var r := RemoveFirst(s, x);
    if x in s {
      assert multiset(r) == multiset(s) - multiset{x};
      assert multiset(s)[x] == 1 by { DistinctCount(s, x); }
      forall y ensures y in r <==> y in s && y != x {
        assert y in r <==> multiset(r)[y] > 0;
        assert y in s <==> multiset(s)[y] > 0;
      }
      forall y ensures multiset(r)[y] <= 1 {
        DistinctCount(s, y);
      }
      DistinctFromCounts(r);
    }
  }

  lemma {:induction false} DistinctCount(s: seq<Uri>, x: Uri)
    requires NoDuplicates(s)
    ensures multiset(s)[x] <= 1
  {
    if s != [] {
      assert s == [s[0]] + s[1..];
      DistinctCount(s[1..], x);
      if s[0] == x {
        assert x !in s[1..];
      }
    }
  }

  lemma {:induction false} DistinctFromCounts(s: seq<Uri>)
    requires forall y :: multiset(s)[y] <= 1
    ensures NoDuplicates(s)
  {
    if s != [] {
      assert s == [s[0]] + s[1..];
      forall y ensures multiset(s[1..])[y] <= 1 {
        assert multiset(s)[y] == multiset([s[0]])[y] + multiset(s[1..])[y];
      }
      DistinctFromCounts(s[1..]);
      assert s[0] !in s[1..] by {
        assert multiset(s)[s[0]] == 1 + multiset(s[1..])[s[0]];
      }
      forall i, j | 0 <= i < j < |s| ensures s[i] != s[j] {
        if i > 0 { assert s[i] == s[1..][i - 1] && s[j] == s[1..][j - 1]; }
        else { assert s[j] in s[1..]; }
      }
    }
  }

  /** The rows of `rows[..k]` whose positions are not selected, in order. */
  function Kept(rows: seq<Row>, selected: set<nat>, k: nat): (kept: seq<Row>)
    requires k <= |rows|
    ensures |kept| <= k
  {
    if k == 0 then []
    else Kept(rows, selected, k - 1) + (if k - 1 in selected then [] else [rows[k - 1]])
  }

  /** The loaded URIs once the selected rows among `rows[..k]` have each had their
      URI removed, in row order (bulky.py:365-368). */
  function UrisWithout(uris: seq<Uri>, rows: seq<Row>, selected: set<nat>, k: nat): seq<Uri>
    requires k <= |rows|
  {
    if k == 0 then uris
    else
      var us := UrisWithout(uris, rows, selected, k - 1);
      if k - 1 in selected then RemoveFirst(us, rows[k - 1].uri) else us
  }

  lemma RowUrisAppend(a: seq<Row>, b: seq<Row>)
    ensures RowUris(a + b) == RowUris(a) + RowUris(b)
  {
  }

  /** Removing the selected rows keeps the URI list in step with the rows. */
  lemma {:induction false} RemoveKeepsMatch(uris: seq<Uri>, rows: seq<Row>, selected: set<nat>, k: nat)
    requires k <= |rows| && Matches(uris, rows)
    ensures multiset(UrisWithout(uris, rows, selected, k))
            == multiset(RowUris(Kept(rows, selected, k))) + multiset(RowUris(rows[k..]))
  {
    if k == 0 {
      assert rows[0..] == rows;
    } else {
      RemoveKeepsMatch(uris, rows, selected, k - 1);
      RemoveStepMatch(uris, rows, selected, k);
    }
  }

  /** One more row through the removal loop keeps the URI list in step. */
  lemma RemoveStepMatch(uris: seq<Uri>, rows: seq<Row>, selected: set<nat>, k: nat)
    requires 1 <= k <= |rows|
    requires multiset(UrisWithout(uris, rows, selected, k - 1))
             == multiset(RowUris(Kept(rows, selected, k - 1))) + multiset(RowUris(rows[k - 1..]))
    ensures multiset(UrisWithout(uris, rows, selected, k))
            == multiset(RowUris(Kept(rows, selected, k))) + multiset(RowUris(rows[k..]))
  {
    var us := UrisWithout(uris, rows, selected, k - 1);
    var kept := Kept(rows, selected, k - 1);
    var x := rows[k - 1].uri;
    var a, b := multiset(RowUris(kept)), multiset(RowUris(rows[k..]));
    assert rows[k - 1..] == [rows[k - 1]] + rows[k..];
    RowUrisAppend([rows[k - 1]], rows[k..]);
    assert RowUris([rows[k - 1]]) == [x];
    assert multiset(us) == a + multiset{x} + b;
    if k - 1 in selected {
      assert UrisWithout(uris, rows, selected, k) == RemoveFirst(us, x);
      assert Kept(rows, selected, k) == kept;
      assert x in us by { assert multiset(us)[x] > 0; }
    } else {
      assert UrisWithout(uris, rows, selected, k) == us;
      assert Kept(rows, selected, k) == kept + [rows[k - 1]];
      RowUrisAppend(kept, [rows[k - 1]]);
    }
  }

  /** Some selected row among `rows[..k]` carries the URI `u`. */
  ghost predicate Hit(rows: seq<Row>, selected: set<nat>, k: nat, u: Uri)
    requires k <= |rows|
  {
    exists j :: 0 <= j < k && j in selected && rows[j].uri == u
  }

  lemma HitStep(rows: seq<Row>, selected: set<nat>, k: nat, u: Uri)
    requires 1 <= k <= |rows|
    ensures Hit(rows, selected, k, u)
            <==> Hit(rows, selected, k - 1, u) || (k - 1 in selected && rows[k - 1].uri == u)
  {
    if Hit(rows, selected, k, u) {
      var j :| 0 <= j < k && j in selected && rows[j].uri == u;
      if j < k - 1 { assert Hit(rows, selected, k - 1, u); }
    }
    if Hit(rows, selected, k - 1, u) {
      var j :| 0 <= j < k - 1 && j in selected && rows[j].uri == u;
      assert 0 <= j < k;
    }
    if k - 1 in selected && rows[k - 1].uri == u {
      assert 0 <= k - 1 < k;
    }
  }

  /** `after` holds the URIs of `uris` that no selected row carries, and no other. */
  ghost predicate RemovedExactly(uris: seq<Uri>, rows: seq<Row>, selected: set<nat>, after: seq<Uri>)
  {
    forall u :: u in after <==> u in uris && !Hit(rows, selected, |rows|, u)
  }

  /** Removing the selected rows takes out exactly their URIs from a list without
      duplicates. */
  lemma {:induction false} RemoveExactly(uris: seq<Uri>, rows: seq<Row>, selected: set<nat>, k: nat)
    requires k <= |rows| && NoDuplicates(uris)
    ensures NoDuplicates(UrisWithout(uris, rows, selected, k))
    ensures forall u :: u in UrisWithout(uris, rows, selected, k) <==>
      u in uris && !Hit(rows, selected, k, u)
  {
    if k > 0 {
      RemoveExactly(uris, rows, selected, k - 1);
      var us := UrisWithout(uris, rows, selected, k - 1);
      var x := rows[k - 1].uri;
      if k - 1 in selected {
        RemoveFirstDistinct(us, x);
        assert UrisWithout(uris, rows, selected, k) == RemoveFirst(us, x);
      } else {
        assert UrisWithout(uris, rows, selected, k) == us;
      }
      forall u ensures Hit(rows, selected, k, u)
                       <==> Hit(rows, selected, k - 1, u) || (k - 1 in selected && x == u) {
        HitStep(rows, selected, k, u);
      }
    }
  }

  /** A row after `on_rename_button` (bulky.py:406-418): a changed name that the
      filesystem accepts gives the row its new URI and name. */
  function RenamedRow(fs: FileSystem, row: Row): (r: Row)
    ensures r.newName == row.newName
    ensures r == row || (row.newName != row.name && r.name == row.newName
                         && fs.rename(row.uri, row.newName) == Some(r.uri))
  {
    if row.newName != row.name then
      match fs.rename(row.uri, row.newName)
      case Some(u) => Row(u, row.newName, row.newName)
      case None => row
    else row
  }

  /** The URI list after the first `k` rows have been through `on_rename_button`:
      each successful rename removes the old URI and appends the new one. */
  function UrisAfterRename(fs: FileSystem, uris: seq<Uri>, rows: seq<Row>, k: nat): seq<Uri>
    requires k <= |rows|
  {
    if k == 0 then uris
    else
      var us := UrisAfterRename(fs, uris, rows, k - 1);
      var row := rows[k - 1];
      if RenamedRow(fs, row) != row then RemoveFirst(us, row.uri) + [RenamedRow(fs, row).uri] else us
  }

  /** The rows after the first `k` have been through `on_rename_button`. */
  function RowsAfterRename(fs: FileSystem, rows: seq<Row>, k: nat): (rs: seq<Row>)
    requires k <= |rows|
    ensures |rs| == |rows|
    ensures forall i :: 0 <= i < |rows| ==> rs[i] == if i < k then RenamedRow(fs, rows[i]) else rows[i]
  {
    seq(|rows|, i requires 0 <= i < |rows| => if i < k then RenamedRow(fs, rows[i]) else rows[i])
  }

  /** One more row through `on_rename_button`, when the filesystem accepts the new
      name: the row takes its new URI and name, and its URI moves to the end of the
      list under the new value. */
  lemma RenameAccepted(fs: FileSystem, uris: seq<Uri>, rows: seq<Row>, k: nat)
    requires k < |rows|
    requires rows[k].newName != rows[k].name && fs.rename(rows[k].uri, rows[k].newName).Some?
    ensures var row, u := rows[k], fs.rename(rows[k].uri, rows[k].newName).value;
      && RowsAfterRename(fs, rows, k + 1) == RowsAfterRename(fs, rows, k)[k := Row(u, row.newName, row.newName)]
      && UrisAfterRename(fs, uris, rows, k + 1) == RemoveFirst(UrisAfterRename(fs, uris, rows, k), row.uri) + [u]
  {
    assert RowsAfterRename(fs, rows, k + 1) == RowsAfterRename(fs, rows, k)[k := RenamedRow(fs, rows[k])];
  }

  /** One more row through `on_rename_button`, when its name is unchanged or the
      filesystem refuses the new one: nothing changes. */
  lemma RenameRefused(fs: FileSystem, uris: seq<Uri>, rows: seq<Row>, k: nat)
    requires k < |rows|
    requires rows[k].newName == rows[k].name || fs.rename(rows[k].uri, rows[k].newName).None?
    ensures RowsAfterRename(fs, rows, k + 1) == RowsAfterRename(fs, rows, k)
    ensures UrisAfterRename(fs, uris, rows, k + 1) == UrisAfterRename(fs, uris, rows, k)
  {
    var rs := RowsAfterRename(fs, rows, k);
    assert RowsAfterRename(fs, rows, k + 1) == rs[k := rows[k]];
    assert rs[k := rows[k]] == rs;
  }

  lemma RowUrisUpdate(rows: seq<Row>, i: nat, r: Row)
    requires i < |rows|
    ensures multiset(RowUris(rows[i := r]))
            == multiset(RowUris(rows)) - multiset{rows[i].uri} + multiset{r.uri}
  {
    var us := RowUris(rows);
    assert RowUris(rows[i := r]) == us[i := r.uri];
    assert us == us[..i] + [us[i]] + us[i + 1..];
    assert us[i := r.uri] == us[..i] + [r.uri] + us[i + 1..];
  }

  /** Renaming keeps the URI list in step with the rows. */
  lemma {:induction false} RenameKeepsMatch(fs: FileSystem, uris: seq<Uri>, rows: seq<Row>, k: nat)
    requires k <= |rows| && Matches(uris, rows)
    ensures Matches(UrisAfterRename(fs, uris, rows, k), RowsAfterRename(fs, rows, k))
  {
    if k > 0 {
      RenameKeepsMatch(fs, uris, rows, k - 1);
      RenameStepMatch(fs, uris, rows, k - 1);
    } else {
      assert RowsAfterRename(fs, rows, 0) == rows;
    }
  }

  /** One more row through the rename loop keeps the URI list in step. */
  lemma RenameStepMatch(fs: FileSystem, uris: seq<Uri>, rows: seq<Row>, k: nat)
    requires k < |rows|
    requires Matches(UrisAfterRename(fs, uris, rows, k), RowsAfterRename(fs, rows, k))
    ensures Matches(UrisAfterRename(fs, uris, rows, k + 1), RowsAfterRename(fs, rows, k + 1))
  {
    var row := rows[k];
    if row.newName != row.name && fs.rename(row.uri, row.newName).Some? {
      RenameAccepted(fs, uris, rows, k);
      var u := fs.rename(row.uri, row.newName).value;
      ReplaceRowMatch(UrisAfterRename(fs, uris, rows, k), RowsAfterRename(fs, rows, k), k,
                      Row(u, row.newName, row.newName));
    } else {
      RenameRefused(fs, uris, rows, k);
    }
  }

  /** Giving row `k` a new URI, and moving its URI to the end of the list under the
      new value, keeps the URI list in step with the rows. */
  lemma ReplaceRowMatch(us: seq<Uri>, rows: seq<Row>, k: nat, r: Row)
    requires k < |rows| && Matches(us, rows)
    ensures Matches(RemoveFirst(us, rows[k].uri) + [r.uri], rows[k := r])
  {
    var x := rows[k].uri;
    RowUrisUpdate(rows, k, r);
    assert x in us by {
      assert RowUris(rows)[k] == x;
      assert multiset(us)[x] > 0;
    }
    var rest := RemoveFirst(us, x);
    calc {
      multiset(rest + [r.uri]);
      multiset(rest) + multiset{r.uri};
      multiset(us) - multiset{x} + multiset{r.uri};
      multiset(RowUris(rows)) - multiset{x} + multiset{r.uri};
      multiset(RowUris(rows[k := r]));
    }
  }

  /** A successful rename of row `j` gives a URI that is not loaded at that point
      (the filesystem refuses to rename onto an existing file). */
  ghost predicate FreshAt(fs: FileSystem, uris: seq<Uri>, rows: seq<Row>, j: nat)
    requires j < |rows|
  {
    RenamedRow(fs, rows[j]) != rows[j] ==>
      RenamedRow(fs, rows[j]).uri !in RemoveFirst(UrisAfterRename(fs, uris, rows, j), rows[j].uri)
  }

  ghost predicate FreshRenames(fs: FileSystem, uris: seq<Uri>, rows: seq<Row>, k: nat)
    requires k <= |rows|
  {
    forall j :: 0 <= j < k ==> FreshAt(fs, uris, rows, j)
  }

  lemma AppendFresh(rest: seq<Uri>, u: Uri)
    requires NoDuplicates(rest) && u !in rest
    ensures NoDuplicates(rest + [u])
  {
    forall i, j | 0 <= i < j < |rest + [u]| ensures (rest + [u])[i] != (rest + [u])[j] {
      if j == |rest| { assert (rest + [u])[i] == rest[i]; }
    }
  }

  /** Renaming keeps the URI list free of duplicates when every new URI is fresh. */
  lemma {:induction false} RenameKeepsDistinct(fs: FileSystem, uris: seq<Uri>, rows: seq<Row>, k: nat)
    requires k <= |rows| && NoDuplicates(uris) && FreshRenames(fs, uris, rows, k)
    ensures NoDuplicates(UrisAfterRename(fs, uris, rows, k))
  {
    if k > 0 {
      assert FreshRenames(fs, uris, rows, k - 1);
      RenameKeepsDistinct(fs, uris, rows, k - 1);
      var us := UrisAfterRename(fs, uris, rows, k - 1);
      var row := rows[k - 1];
      if RenamedRow(fs, row) != row {
        assert FreshAt(fs, uris, rows, k - 1);
        RemoveFirstDistinct(us, row.uri);
        AppendFresh(RemoveFirst(us, row.uri), RenamedRow(fs, row).uri);
      }
    }
  }
}
