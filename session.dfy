/**
 * The state of the main window that the renamer keeps between events
 * (`MainWindow`, bulky.py:161-511): the list of loaded URIs, the rows of the
 * file list, the pending URIs of the last preview, the rename button and the
 * info bar. Each handler is a method that changes these fields step by step,
 * as the source does, and is proved against the functions of `Rows` and
 * `Preview` that say what it computes.
 *
 * The class invariant `Valid` is the one the source relies on when it calls
 * `self.uris.remove`: the loaded URIs are the URIs of the rows.
 */
module Session {
  import opened Wrappers
  import opened PyStr
  import opened Scopes
  import opened Transforms
  import opened Rows
  import opened Preview

  class MainWindow {
    /** `self.uris`: the URIs loaded so far. */
    var uris: seq<Uri>
    /** The rows of the file list, in display order. */
    var rows: seq<Row>
    /** `self.renamed_uris`: the pending URIs of the last preview. */
    var renamedUris: seq<Uri>
    /** Whether the rename button can be clicked. */
    var renameEnabled: bool
    /** The info bar: hidden, or showing the message of one flagged row. */
    var alert: Option<Alert>
    /** The scope combo box and the operation page with its settings. */
    var scope: Scope
    var operation: ValidOp

    ghost predicate Valid()
      reads this
    {
      Matches(uris, rows)
    }

    /** bulky.py:163-171: nothing loaded, names only, the "Replace" page. */
    constructor (replace: ReplaceConfig)
      ensures Valid() && uris == [] && rows == [] && renamedUris == []
      ensures scope == NameOnly && operation == ReplaceOp(replace)
      ensures renameEnabled && alert == None
    {
      uris := [];
      rows := [];
      renamedUris := [];
      renameEnabled := true;
      alert := None;
      scope := NameOnly;
      operation := ReplaceOp(replace);
    }

    /** bulky.py:435-447: a file that could not be queried (`info == None`) or whose
        URI is already loaded is ignored; otherwise its URI is appended to the
        loaded URIs and a row showing its name in both columns is added. The
        sorted list decides where the row goes; here that place is an input. */
    method AddFile(uri: Uri, info: Option<string>, position: nat)
      requires Valid()
      modifies this
      ensures Valid()
      ensures info.None? || uri in old(uris) ==> uris == old(uris) && rows == old(rows)
      ensures info.Some? && uri !in old(uris) ==>
        var p := Min(position, |old(rows)|);
        && uris == old(uris) + [uri]
        && rows == old(rows)[..p] + [Row(uri, info.value, info.value)] + old(rows)[p..]
      ensures NoDuplicates(old(uris)) ==> NoDuplicates(uris)
      ensures renamedUris == old(renamedUris) && renameEnabled == old(renameEnabled)
      ensures alert == old(alert) && scope == old(scope) && operation == old(operation)
    {
      if info.None? || uri in uris {
        return;
      }
      var p := Min(position, |rows|);
      var row := Row(uri, info.value, info.value);
      ghost var before := rows;
      rows := rows[..p] + [row] + rows[p..];
      AddKeepsMatch(uris, before, p, row);
      if NoDuplicates(uris) {
        AppendFresh(uris, uri);
      }
      uris := uris + [uri];
    }

    /** bulky.py:358-369, without the preview that follows: the URI of every selected
        row is removed from the loaded URIs, and the row from the list. */
    method RemoveRows(selected: set<nat>)
      requires Valid()
      modifies this
      ensures Valid()
      ensures rows == Kept(old(rows), selected, |old(rows)|)
      ensures uris == UrisWithout(old(uris), old(rows), selected, |old(rows)|)
      ensures NoDuplicates(old(uris)) ==> NoDuplicates(uris) && RemovedExactly(old(uris), old(rows), selected, uris)
      ensures renamedUris == old(renamedUris) && renameEnabled == old(renameEnabled)
      ensures alert == old(alert) && scope == old(scope) && operation == old(operation)
    {
      var us, kept := uris, [];
      var k := 0;
      while k < |rows|
        invariant k <= |rows|
        invariant kept == Kept(rows, selected, k)
        invariant us == UrisWithout(uris, rows, selected, k)
      {
        if k in selected {
          us := RemoveFirst(us, rows[k].uri);
        } else {
          kept := kept + [rows[k]];
        }
        k := k + 1;
      }
      ghost var uris0, rows0 := uris, rows;
      uris, rows := us, kept;
      RemoveKeeps(uris0, rows0, selected);
    }

    /** bulky.py:358-370: the remove button takes the selected rows out and previews
        again. */
    method OnRemoveButton(selected: set<nat>, sub: Substitute, fs: FileSystem)
      requires Valid()
      modifies this
      ensures Valid()
      ensures uris == UrisWithout(old(uris), old(rows), selected, |old(rows)|)
      ensures scope == old(scope) && operation == old(operation)
      ensures var kept := Kept(old(rows), selected, |old(rows)|);
        Previewed(kept, ContextOf(old(scope), old(operation), sub, fs))
    {
      RemoveRows(selected);
      PreviewChanges(sub, fs);
    }

    /** The window after a preview of `rows0` under `ctx`: the new names shown, the
        pending URIs recorded, the rename button and the info bar set. */
    ghost predicate Previewed(rows0: seq<Row>, ctx: Context)
      reads this
    {
      PassState(rows, renamedUris, renameEnabled, alert)
        == Expected(ctx, rows0, Pendings(ctx, rows0), Flags(ctx, rows0), |rows0|)
    }

    /** bulky.py:472-511, with a failing transform reported and skipped rather than
        retried for ever: every row is shown its proposed name, its pending URI is
        recorded, and the first applicable flag among collision, unwritable
        directory and unwritable file is raised. */
    method PreviewChanges(sub: Substitute, fs: FileSystem)
      requires Valid()
      modifies this
      ensures Valid()
      ensures Previewed(old(rows), ContextOf(scope, operation, sub, fs))
      ensures uris == old(uris) && scope == old(scope) && operation == old(operation)
    {
      PreviewWith(ContextOf(scope, operation, sub, fs));
    }

    /** The loop of `PreviewChanges`, for any way of proposing names. */
    method PreviewWith(ctx: Context)
      requires Valid()
      modifies this
      ensures Valid()
      ensures Previewed(old(rows), ctx)
      ensures uris == old(uris) && scope == old(scope) && operation == old(operation)
    {
      ghost var rows0 := rows;
      var shown, recorded, enabled, bar := PreviewPass(ctx, rows);
      PassResult(ctx, uris, rows0, shown, recorded, enabled, bar);
      Show(PassState(shown, recorded, enabled, bar));
    }

    /** Shows the outcome of a preview: the rows with their new names, the pending
        URIs, the rename button and the info bar. */
    method Show(st: PassState)
      modifies this
      ensures PassState(rows, renamedUris, renameEnabled, alert) == st
      ensures uris == old(uris) && scope == old(scope) && operation == old(operation)
    {
      rows, renamedUris, renameEnabled, alert := st.rows, st.recorded, st.enabled, st.alert;
    }

    /** bulky.py:396-419: each row whose new name differs from its name is renamed;
        a rename the filesystem accepts swaps the old URI for the new one at the end
        of the loaded URIs and shows the new name, a refused one leaves the row as
        it was. The rename button is then turned off. */
    method RenameAll(fs: FileSystem)
      requires Valid()
      modifies this
      ensures Valid()
      ensures rows == RowsAfterRename(fs, old(rows), |old(rows)|)
      ensures uris == UrisAfterRename(fs, old(uris), old(rows), |old(rows)|)
      ensures NoDuplicates(old(uris)) && FreshRenames(fs, old(uris), old(rows), |old(rows)|) ==>
        NoDuplicates(uris)
      ensures !renameEnabled
      ensures renamedUris == old(renamedUris) && alert == old(alert)
      ensures scope == old(scope) && operation == old(operation)
    {
      ghost var uris0, rows0 := uris, rows;
      RenameKeeps(fs, uris0, rows0);
      uris, rows := RenamePass(fs, uris, rows);
      renameEnabled := false;
    }

    /** bulky.py:389-391: the list and the loaded URIs are emptied. */
    method Clear()
      modifies this
      ensures Valid() && rows == [] && uris == []
      ensures renamedUris == old(renamedUris) && renameEnabled == old(renameEnabled)
      ensures alert == old(alert) && scope == old(scope) && operation == old(operation)
    {
      rows := [];
      uris := [];
    }

    /** bulky.py:449-463: choosing another operation page previews again. */
    method SetOperation(op: ValidOp, sub: Substitute, fs: FileSystem)
      requires Valid()
      modifies this
      ensures Valid() && operation == op && scope == old(scope) && uris == old(uris)
      ensures Previewed(old(rows), ContextOf(scope, op, sub, fs))
    {
      operation := op;
      PreviewChanges(sub, fs);
    }

    /** bulky.py:465-467: choosing another scope previews again. */
    method SetScope(s: Scope, sub: Substitute, fs: FileSystem)
      requires Valid()
      modifies this
      ensures Valid() && scope == s && operation == old(operation) && uris == old(uris)
      ensures Previewed(old(rows), ContextOf(s, operation, sub, fs))
    {
      scope := s;
      PreviewChanges(sub, fs);
    }
  }

  /** The loop of bulky.py:476-511 over the rows in display order, with the counter
      starting at 1: the rows with their new names, `renamed_uris`, the rename
      button and the info bar it leaves. */
  method PreviewPass(ctx: Context, rows: seq<Row>)
    returns (shown: seq<Row>, recorded: seq<Uri>, enabled: bool, bar: Option<Alert>)
    ensures PassState(shown, recorded, enabled, bar) == Pass(ctx, rows, |rows|)
  {
    var fs := ctx.fs;
    shown, recorded, enabled, bar := rows, [], true, None;
    var pos := 0;
    var index := 1;
    while pos < |rows|
      invariant pos <= |rows| && index == pos + 1
      invariant PassState(shown, recorded, enabled, bar) == Pass(ctx, rows, pos)
    {
      var row := shown[pos];
      match ctx.propose(index, row.name) {
        case Err(_) =>
          shown := shown[pos := row.(newName := row.name)];
          bar := Some(Alert(Failed, row.uri));
          enabled := false;
        case Ok(newName) =>
          shown := shown[pos := row.(newName := newName)];
          var u := fs.pendingUri(row.uri, newName);
          if u in recorded {
            bar := Some(Alert(Collision, row.uri));
            enabled := false;
          } else if !fs.parentWritable(row.uri) {
            bar := Some(Alert(ParentNotWritable, row.uri));
            enabled := false;
          } else if !fs.writable(row.uri) {
            bar := Some(Alert(NotWritable, row.uri));
            enabled := false;
          }
          recorded := recorded + [u];
      }
      pos := pos + 1;
      index := index + 1;
    }
  }

  /** The loop of bulky.py:403-418 over the rows in display order: the loaded URIs
      and the rows it leaves. */
  method RenamePass(fs: FileSystem, uris: seq<Uri>, rows: seq<Row>) returns (us: seq<Uri>, rs: seq<Row>)
    ensures us == UrisAfterRename(fs, uris, rows, |rows|)
    ensures rs == RowsAfterRename(fs, rows, |rows|)
  {
    us, rs := uris, rows;
    var k := 0;
    while k < |rs|
      invariant k <= |rs| == |rows|
      invariant rs == RowsAfterRename(fs, rows, k)
      invariant us == UrisAfterRename(fs, uris, rows, k)
    {
      var row := rs[k];
      assert row == rows[k];
      if row.newName != row.name {
        match fs.rename(row.uri, row.newName) {
          case Some(u) =>
            RenameAccepted(fs, uris, rows, k);
            us := RemoveFirst(us, row.uri) + [u];
            rs := rs[k := Row(u, row.newName, row.newName)];
          case None =>
            RenameRefused(fs, uris, rows, k);
        }
      } else {
        RenameRefused(fs, uris, rows, k);
      }
      k := k + 1;
    }
  }

  /** What the pass leaves is what `Previewed` says, and satisfies the class
      invariant: no row changes its URI. */
  lemma PassResult(ctx: Context, uris: seq<Uri>, rows: seq<Row>,
                   shown: seq<Row>, recorded: seq<Uri>, enabled: bool, bar: Option<Alert>)
    requires Matches(uris, rows)
    requires PassState(shown, recorded, enabled, bar) == Pass(ctx, rows, |rows|)
    ensures Matches(uris, shown)
    ensures PassState(shown, recorded, enabled, bar)
            == Expected(ctx, rows, Pendings(ctx, rows), Flags(ctx, rows), |rows|)
  {
    PassMeaning(ctx, rows);
    ShownRowsUris(ctx, rows, |rows|);
    assert shown == ShownRows(ctx, rows, |rows|);
  }

  /** Inserting a row anywhere and appending its URI keeps the two lists in step. */
  lemma AddKeepsMatch(uris: seq<Uri>, rows: seq<Row>, p: nat, row: Row)
    requires p <= |rows| && Matches(uris, rows)
    ensures Matches(uris + [row.uri], rows[..p] + [row] + rows[p..])
  {
    RowUrisAppend(rows[..p] + [row], rows[p..]);
    RowUrisAppend(rows[..p], [row]);
    RowUrisAppend(rows[..p], rows[p..]);
    assert rows[..p] + rows[p..] == rows;
  }

  /** What `RemoveRows` leaves satisfies the class invariant, and takes out exactly
      the selected URIs from a list without duplicates. */
  lemma RemoveKeeps(uris: seq<Uri>, rows: seq<Row>, selected: set<nat>)
    requires Matches(uris, rows)
    ensures Matches(UrisWithout(uris, rows, selected, |rows|), Kept(rows, selected, |rows|))
    ensures NoDuplicates(uris) ==>
      var after := UrisWithout(uris, rows, selected, |rows|);
      NoDuplicates(after) && RemovedExactly(uris, rows, selected, after)
  {
    RemoveKeepsMatch(uris, rows, selected, |rows|);
    assert rows[|rows|..] == [];
    if NoDuplicates(uris) {
      RemoveExactly(uris, rows, selected, |rows|);
    }
  }

  /** What `RenameAll` leaves satisfies the class invariant, and has no duplicate
      URI when every accepted rename gives a fresh one. */
  lemma RenameKeeps(fs: FileSystem, uris: seq<Uri>, rows: seq<Row>)
    requires Matches(uris, rows)
    ensures Matches(UrisAfterRename(fs, uris, rows, |rows|), RowsAfterRename(fs, rows, |rows|))
    ensures NoDuplicates(uris) && FreshRenames(fs, uris, rows, |rows|) ==>
      NoDuplicates(UrisAfterRename(fs, uris, rows, |rows|))
  {
    RenameKeepsMatch(fs, uris, rows, |rows|);
    if NoDuplicates(uris) && FreshRenames(fs, uris, rows, |rows|) {
      RenameKeepsDistinct(fs, uris, rows, |rows|);
    }
  }
}
