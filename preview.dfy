/**
 * What one pass of `MainWindow.preview_changes` (bulky.py:472-511) computes
 * for each row: the proposed new name, the URI it would give the file, and
 * the flag it raises. Entries are numbered from 1 in row order; the counter
 * of the name transforms is that number.
 *
 * The flags are checked in order: a pending URI that an earlier entry
 * already claimed is a collision; otherwise a directory that cannot be
 * written, and then a file that cannot be written, are reported. Every
 * pending URI is recorded, flagged or not.
 *
 * As written, an exception from the transform leaves the loop on the same
 * row forever; the model states that (`RunAsWritten`), and the window class
 * uses the corrected pass, in which a failing entry keeps its name, is
 * flagged `Failed`, and the loop moves on.
 */
module Preview {
  import opened Wrappers
  import opened Scopes
  import opened Transforms
  import opened Rows
  import Wildcard
  import Counter

  /** What the pass reads besides the rows: how a new name is proposed for a counter
      value and a name, and the filesystem. */
  datatype Context = Context(propose: (nat, string) -> Result<string, string>, fs: FileSystem)

  /** The name transform of an operation (`operation_function`), given the
      regular-expression engine. */
  function TransformOf(op: ValidOp, sub: Substitute): Transform
  {
    (index: nat, s: string) => Apply(op, sub, index, s)
  }

  /** The proposal of bulky.py:482-491 for the window's scope and operation. */
  function ContextOf(scope: Scope, op: ValidOp, sub: Substitute, fs: FileSystem): Context
  {
    Context((index: nat, name: string) => Propose(scope, TransformOf(op, sub), index, name), fs)
  }

  /** The name transform as bulky.py:449-462 wires it, with the source's own insertion
      and wildcard translation. */
  function TransformAsWrittenOf(op: ValidOp, sub: Substitute): Transform
  {
    (index: nat, s: string) => ApplyAsWritten(op, sub, index, s)
  }

  /** The proposal of bulky.py:482-491 with the transform as the source wires it. */
  function ContextAsWrittenOf(scope: Scope, op: ValidOp, sub: Substitute, fs: FileSystem): Context
  {
    Context((index: nat, name: string) => Propose(scope, TransformAsWrittenOf(op, sub), index, name), fs)
  }

  /** The new name proposed for row `i`, or the exception raised computing it. */
  function ProposalAt(ctx: Context, rows: seq<Row>, i: nat): Result<string, string>
    requires i < |rows|
  {
    ctx.propose(i + 1, rows[i].name)
  }

  /** The URI row `i` would have once renamed, when its new name could be computed. */
  function PendingAt(ctx: Context, rows: seq<Row>, i: nat): Option<Uri>
    requires i < |rows|
  {
    match ProposalAt(ctx, rows, i)
    case Ok(n) => Some(ctx.fs.pendingUri(rows[i].uri, n))
    case Err(_) => None
  }

  /** The pending URIs of all rows, in row order. */
  function Pendings(ctx: Context, rows: seq<Row>): (ps: seq<Option<Uri>>)
    ensures |ps| == |rows|
    ensures forall i :: 0 <= i < |rows| ==> ps[i] == PendingAt(ctx, rows, i)
  {
    seq(|rows|, i requires 0 <= i < |rows| => PendingAt(ctx, rows, i))
  }

  /** `renamed_uris` after the first `k` rows, from their pending URIs. */
  function Recorded(ps: seq<Option<Uri>>, k: nat): seq<Uri>
    requires k <= |ps|
  {
    if k == 0 then []
    else Recorded(ps, k - 1) + (if ps[k - 1].Some? then [ps[k - 1].value] else [])
  }

  datatype Status = Fine | Collision | ParentNotWritable | NotWritable | Failed

  /** The flag of row `i` (bulky.py:495-506), from the pending URIs and the two
      writability answers for its file. */
  function Flag(ps: seq<Option<Uri>>, i: nat, parentOk: bool, fileOk: bool): Status
    requires i < |ps|
  {
    match ps[i]
    case None => Failed
    case Some(u) =>
      if u in Recorded(ps, i) then Collision
      else if !parentOk then ParentNotWritable
      else if !fileOk then NotWritable
      else Fine
  }

  /** The flags of all rows, in row order. */
  function Flags(ctx: Context, rows: seq<Row>): (fs: seq<Status>)
    ensures |fs| == |rows|
    ensures forall i :: 0 <= i < |rows| ==>
      fs[i] == Flag(Pendings(ctx, rows), i, ctx.fs.parentWritable(rows[i].uri), ctx.fs.writable(rows[i].uri))
  {
    var ps := Pendings(ctx, rows);
    seq(|rows|, i requires 0 <= i < |rows| => Flag(ps, i, ctx.fs.parentWritable(rows[i].uri), ctx.fs.writable(rows[i].uri)))
  }

  /** The "New name" column of row `i` after the pass. */
  function NewNameAt(ctx: Context, rows: seq<Row>, i: nat): string
    requires i < |rows|
  {
    match ProposalAt(ctx, rows, i)
    case Ok(n) => n
    case Err(_) => rows[i].name
  }

  /** The rows once the pass has shown the new names of the first `k` of them. */
  function ShownRows(ctx: Context, rows: seq<Row>, k: nat): (rs: seq<Row>)
    requires k <= |rows|
    ensures |rs| == |rows|
    ensures forall i :: 0 <= i < |rows| ==>
      rs[i] == if i < k then rows[i].(newName := NewNameAt(ctx, rows, i)) else rows[i]
  {
    seq(|rows|, i requires 0 <= i < |rows| =>
      if i < k then rows[i].(newName := NewNameAt(ctx, rows, i)) else rows[i])
  }

  lemma ShownRowsStep(ctx: Context, rows: seq<Row>, k: nat)
    requires k < |rows|
    ensures ShownRows(ctx, rows, k + 1)
         == ShownRows(ctx, rows, k)[k := rows[k].(newName := NewNameAt(ctx, rows, k))]
  {
  }

  /** Showing new names leaves the URIs of the rows as they were. */
  lemma ShownRowsUris(ctx: Context, rows: seq<Row>, k: nat)
    requires k <= |rows|
    ensures RowUris(ShownRows(ctx, rows, k)) == RowUris(rows)
  {
  }

  /** The info bar: the kind of the message and the file it names. */
  datatype Alert = Alert(status: Status, uri: Uri)

  /** The info bar after the first `k` rows: the message of the last flagged one. */
  function LastAlert(flags: seq<Status>, uris: seq<Uri>, k: nat): Option<Alert>
    requires k <= |flags| == |uris|
  {
    if k == 0 then None
    else if flags[k - 1] != Fine then Some(Alert(flags[k - 1], uris[k - 1]))
    else LastAlert(flags, uris, k - 1)
  }

  /** `renamed_uris` holds exactly the pending URIs of the rows seen so far. */
  lemma {:induction false} RecordedHolds(ps: seq<Option<Uri>>, k: nat, u: Uri)
    requires k <= |ps|
    ensures u in Recorded(ps, k) <==> exists j :: 0 <= j < k && ps[j] == Some(u)
  {
    if k > 0 {
      RecordedHolds(ps, k - 1, u);
    }
  }

  /** The flag of a row, stated without `renamed_uris`: a collision exactly when an
      earlier row has the same pending URI (so the first of them is never flagged
      for it), and the writability checks only after that. */
  lemma FlagMeaning(ps: seq<Option<Uri>>, i: nat, parentOk: bool, fileOk: bool)
    requires i < |ps|
    ensures var earlier := exists j :: 0 <= j < i && ps[j] == ps[i];
      var f := Flag(ps, i, parentOk, fileOk);
      && (f == Failed <==> ps[i].None?)
      && (f == Collision <==> ps[i].Some? && earlier)
      && (f == ParentNotWritable <==> ps[i].Some? && !earlier && !parentOk)
      && (f == NotWritable <==> ps[i].Some? && !earlier && parentOk && !fileOk)
      && (f == Fine <==> ps[i].Some? && !earlier && parentOk && fileOk)
  {
    if ps[i].Some? {
      RecordedHolds(ps, i, ps[i].value);
    }
  }

  /** After the pass, every pending URI is recorded, whether or not its row was flagged. */
  lemma EveryPendingRecorded(ps: seq<Option<Uri>>, i: nat)
    requires i < |ps| && ps[i].Some?
    ensures ps[i].value in Recorded(ps, |ps|)
  {
    RecordedHolds(ps, |ps|, ps[i].value);
  }

  /** The info bar is hidden exactly when no row is flagged; when shown, it carries the
      message of the last flagged row. */
  lemma {:induction false} AlertMeaning(flags: seq<Status>, uris: seq<Uri>, k: nat)
    requires k <= |flags| == |uris|
    ensures LastAlert(flags, uris, k).None? <==> forall j :: 0 <= j < k ==> flags[j] == Fine
    ensures LastAlert(flags, uris, k).Some? ==>
      exists j :: 0 <= j < k && LastAlert(flags, uris, k).value == Alert(flags[j], uris[j])
        && flags[j] != Fine && forall j' :: j < j' < k ==> flags[j'] == Fine
  {
    if k > 0 {
      AlertMeaning(flags, uris, k - 1);
    }
  }

  /** What the corrected pass does with row `k`, given what it did with the rows
      before: the name shown, the pending URI recorded, the flag raised, and how the
      rename button and the info bar follow from that flag. */
  lemma PassStep(ctx: Context, rows: seq<Row>, k: nat)
    requires k < |rows|
    ensures var ps, flags, p := Pendings(ctx, rows), Flags(ctx, rows), ctx.propose(k + 1, rows[k].name);
      var uri := rows[k].uri;
      && (p.Err? ==>
            && NewNameAt(ctx, rows, k) == rows[k].name
            && Recorded(ps, k + 1) == Recorded(ps, k)
            && flags[k] == Failed)
      && (p.Ok? ==>
            var u := ctx.fs.pendingUri(uri, p.value);
            && NewNameAt(ctx, rows, k) == p.value
            && Recorded(ps, k + 1) == Recorded(ps, k) + [u]
            && flags[k] == (if u in Recorded(ps, k) then Collision
                            else if !ctx.fs.parentWritable(uri) then ParentNotWritable
                            else if !ctx.fs.writable(uri) then NotWritable
                            else Fine))
      && AllFine(flags, k + 1) == (AllFine(flags, k) && flags[k] == Fine)
      && LastAlert(flags, RowUris(rows), k + 1)
         == if flags[k] != Fine then Some(Alert(flags[k], uri)) else LastAlert(flags, RowUris(rows), k)
  {
    assert RowUris(rows)[k] == rows[k].uri;
  }

  /** The window's share of the corrected pass: the rows with the new names shown so
      far, `renamed_uris`, the rename button and the info bar. */
  datatype PassState = PassState(rows: seq<Row>, recorded: seq<Uri>, enabled: bool, alert: Option<Alert>)

  /** The corrected loop body on row `k`: the new name is shown (the row's own name
      when the transform fails), the pending URI recorded, and a raised flag turns
      the button off and puts its message in the info bar (bulky.py:478-509). */
  function PassRow(ctx: Context, k: nat, st: PassState): (next: PassState)
    requires k < |st.rows|
    ensures |next.rows| == |st.rows|
    ensures forall i :: 0 <= i < |st.rows| && i != k ==> next.rows[i] == st.rows[i]
  {
    var row := st.rows[k];
    match ctx.propose(k + 1, row.name)
    case Err(_) =>
      PassState(st.rows[k := row.(newName := row.name)], st.recorded, false, Some(Alert(Failed, row.uri)))
    case Ok(n) =>
      var u := ctx.fs.pendingUri(row.uri, n);
      var status := if u in st.recorded then Collision
                    else if !ctx.fs.parentWritable(row.uri) then ParentNotWritable
                    else if !ctx.fs.writable(row.uri) then NotWritable
                    else Fine;
      PassState(st.rows[k := row.(newName := n)], st.recorded + [u], st.enabled && status == Fine,
                if status == Fine then st.alert else Some(Alert(status, row.uri)))
  }

  /** The corrected pass after its first `k` rows. */
  function Pass(ctx: Context, rows: seq<Row>, k: nat): (st: PassState)
    requires k <= |rows|
    ensures |st.rows| == |rows|
  {
    if k == 0 then PassState(rows, [], true, None)
    else PassRow(ctx, k - 1, Pass(ctx, rows, k - 1))
  }

  /** What the window shows after `k` rows, in terms of the pending URIs and the flags. */
  function Expected(ctx: Context, rows: seq<Row>, ps: seq<Option<Uri>>, flags: seq<Status>, k: nat): PassState
    requires k <= |rows| == |ps| == |flags|
  {
    PassState(ShownRows(ctx, rows, k), Recorded(ps, k), AllFine(flags, k), LastAlert(flags, RowUris(rows), k))
  }

  /** The corrected pass shows every proposed name, records every pending URI, turns
      the button off exactly when some row is flagged, and leaves the message of the
      last flagged row in the info bar. */
  lemma PassMeaning(ctx: Context, rows: seq<Row>)
    ensures Pass(ctx, rows, |rows|) == Expected(ctx, rows, Pendings(ctx, rows), Flags(ctx, rows), |rows|)
  {
    var ps, flags := Pendings(ctx, rows), Flags(ctx, rows);
    forall k | 0 <= k < |rows|
      ensures PassRow(ctx, k, Expected(ctx, rows, ps, flags, k)) == Expected(ctx, rows, ps, flags, k + 1)
    {
      PassRowAgrees(ctx, rows, k);
    }
    PassChain(ctx, rows, ps, flags, |rows|);
  }

  lemma {:induction false} PassChain(ctx: Context, rows: seq<Row>, ps: seq<Option<Uri>>, flags: seq<Status>, k: nat)
    requires k <= |rows| == |ps| == |flags|
    requires forall j :: 0 <= j < |rows| ==>
      PassRow(ctx, j, Expected(ctx, rows, ps, flags, j)) == Expected(ctx, rows, ps, flags, j + 1)
    ensures Pass(ctx, rows, k) == Expected(ctx, rows, ps, flags, k)
  {
    if k > 0 {
      PassChain(ctx, rows, ps, flags, k - 1);
    } else {
      assert ShownRows(ctx, rows, 0) == rows;
    }
  }

  lemma PassRowAgrees(ctx: Context, rows: seq<Row>, k: nat)
    requires k < |rows|
    ensures var ps, flags := Pendings(ctx, rows), Flags(ctx, rows);
      PassRow(ctx, k, Expected(ctx, rows, ps, flags, k)) == Expected(ctx, rows, ps, flags, k + 1)
  {
    PassStep(ctx, rows, k);
    ShownRowsStep(ctx, rows, k);
  }

  /** The variables of the loop at bulky.py:476-511: the row `iter` points at, the
      counter `index`, `renamed_uris` and the rename button's state. */
  datatype LoopState = LoopState(pos: nat, index: nat, recorded: seq<Uri>, enabled: bool)

  function Start(): LoopState { LoopState(0, 1, [], true) }

  /** One pass of the loop body as written: an exception is printed and the loop goes
      round again without moving `iter` or `index`. */
  function StepAsWritten(ctx: Context, rows: seq<Row>, st: LoopState): (next: LoopState)
    requires st.pos < |rows|
    ensures next.pos <= |rows|
  {
    StepWith(ctx.propose(st.index, rows[st.pos].name), rows[st.pos].uri, ctx.fs, st)
  }

  /** The loop body once the new name (or the exception) is known. */
  function StepWith(proposal: Result<string, string>, uri: Uri, fs: FileSystem, st: LoopState): (next: LoopState)
    ensures proposal.Err? ==> next == st
    ensures proposal.Ok? ==> next.pos == st.pos + 1
  {
    match proposal
    case Err(_) => st
    case Ok(n) =>
      var u := fs.pendingUri(uri, n);
      var flagged := u in st.recorded || !fs.parentWritable(uri) || !fs.writable(uri);
      LoopState(st.pos + 1, st.index + 1, st.recorded + [u], st.enabled && !flagged)
  }

  /** `steps` passes of the loop as written, stopping once `iter` runs off the end. */
  function RunAsWritten(ctx: Context, rows: seq<Row>, st: LoopState, steps: nat): LoopState
    requires st.pos <= |rows|
    decreases steps
  {
    if steps == 0 || st.pos == |rows| then st
    else RunAsWritten(ctx, rows, StepAsWritten(ctx, rows, st), steps - 1)
  }

  /** As written, once the transform raises on a row the loop never leaves it. */
  lemma {:induction false} AsWrittenStuck(ctx: Context, rows: seq<Row>, st: LoopState, steps: nat)
    requires st.pos < |rows|
    requires ctx.propose(st.index, rows[st.pos].name).Err?
    ensures RunAsWritten(ctx, rows, st, steps) == st
    decreases steps
  {
    if steps > 0 {
      AsWrittenStuck(ctx, rows, st, steps - 1);
    }
  }

  /** The corrected pass after `k` rows, in the loop's variables. */
  function StateAt(ps: seq<Option<Uri>>, flags: seq<Status>, k: nat): LoopState
    requires k <= |ps| && k <= |flags|
  {
    LoopState(k, k + 1, Recorded(ps, k), AllFine(flags, k))
  }

  /** No row before `k` carries a flag. */
  function AllFine(flags: seq<Status>, k: nat): (b: bool)
    requires k <= |flags|
    ensures b <==> forall j :: 0 <= j < k ==> flags[j] == Fine
  {
    k == 0 || (AllFine(flags, k - 1) && flags[k - 1] == Fine)
  }

  /** When no transform raises, the loop as written computes what the corrected pass
      computes. */
  lemma AsWrittenAgrees(ctx: Context, rows: seq<Row>)
    requires forall i :: 0 <= i < |rows| ==> ProposalAt(ctx, rows, i).Ok?
    ensures RunAsWritten(ctx, rows, Start(), |rows|)
         == StateAt(Pendings(ctx, rows), Flags(ctx, rows), |rows|)
  {
    var ps, flags := Pendings(ctx, rows), Flags(ctx, rows);
    forall k | 0 <= k < |rows|
      ensures StepAsWritten(ctx, rows, StateAt(ps, flags, k)) == StateAt(ps, flags, k + 1)
    {
      StepAgrees(ctx, rows, k);
    }
    RunAgrees(ctx, rows, ps, flags, 0);
    assert StateAt(ps, flags, 0) == Start();
  }

  /** Every pass of the loop as written takes the corrected state after `k` rows to
      the one after `k + 1`. */
  ghost predicate StepsAgree(ctx: Context, rows: seq<Row>, ps: seq<Option<Uri>>, flags: seq<Status>)
    requires |ps| == |rows| == |flags|
  {
    forall k :: 0 <= k < |rows| ==>
      StepAsWritten(ctx, rows, StateAt(ps, flags, k)) == StateAt(ps, flags, k + 1)
  }

  lemma {:induction false} RunAgrees(ctx: Context, rows: seq<Row>, ps: seq<Option<Uri>>, flags: seq<Status>, k: nat)
    requires |ps| == |rows| == |flags| && k <= |rows|
    requires StepsAgree(ctx, rows, ps, flags)
    ensures RunAsWritten(ctx, rows, StateAt(ps, flags, k), |rows| - k) == StateAt(ps, flags, |rows|)
    decreases |rows| - k
  {
    if k < |rows| {
      RunAgrees(ctx, rows, ps, flags, k + 1);
      RunOneStep(ctx, rows, StateAt(ps, flags, k), |rows| - k);
    } else {
      RunNone(ctx, rows, StateAt(ps, flags, k));
    }
  }

  lemma RunNone(ctx: Context, rows: seq<Row>, st: LoopState)
    requires st.pos <= |rows|
    ensures RunAsWritten(ctx, rows, st, 0) == st
  {
  }

  lemma RunOneStep(ctx: Context, rows: seq<Row>, st: LoopState, steps: nat)
    requires st.pos < |rows| && steps > 0
    ensures RunAsWritten(ctx, rows, st, steps) == RunAsWritten(ctx, rows, StepAsWritten(ctx, rows, st), steps - 1)
  {
  }

  lemma StepAgrees(ctx: Context, rows: seq<Row>, k: nat)
    requires k < |rows| && Pendings(ctx, rows)[k].Some?
    ensures var ps, flags := Pendings(ctx, rows), Flags(ctx, rows);
      StepAsWritten(ctx, rows, StateAt(ps, flags, k)) == StateAt(ps, flags, k + 1)
  {
    var ps, flags := Pendings(ctx, rows), Flags(ctx, rows);
    var proposal := ProposalAt(ctx, rows, k);
    assert ps[k] == Some(ctx.fs.pendingUri(rows[k].uri, proposal.value));
    StepWithAgrees(ps, flags, k, proposal, rows[k].uri, ctx.fs);
  }

  lemma StepWithAgrees(ps: seq<Option<Uri>>, flags: seq<Status>, k: nat,
                       proposal: Result<string, string>, uri: Uri, fs: FileSystem)
    requires k < |ps| && k < |flags| && proposal.Ok?
    requires ps[k] == Some(fs.pendingUri(uri, proposal.value))
    requires flags[k] == Flag(ps, k, fs.parentWritable(uri), fs.writable(uri))
    ensures StepWith(proposal, uri, fs, StateAt(ps, flags, k)) == StateAt(ps, flags, k + 1)
  {
    var u := ps[k].value;
    assert Recorded(ps, k + 1) == Recorded(ps, k) + [u];
  }

  /** With regular expressions off, Python's `re.sub` raises on a replacement such as
      `\q` ("bad escape"), whatever the search text; as written, previewing the single
      file "a" then never ends. */
  lemma AsWrittenLoopsOnBadTemplate(find: string, template: string, sub: Substitute, fs: FileSystem, u: Uri)
    requires '%' !in template
    requires sub(Wildcard.WildcardPatternAsWritten(find), true, template, "a").Err?
    ensures var ctx := ContextAsWrittenOf(NameOnly, ReplaceOp(ReplaceConfig(find, template, false, false)), sub, fs);
      forall steps: nat :: RunAsWritten(ctx, [Row(u, "a", "a")], Start(), steps) == Start()
  {
    var ctx := ContextAsWrittenOf(NameOnly, ReplaceOp(ReplaceConfig(find, template, false, false)), sub, fs);
    var rows := [Row(u, "a", "a")];
    BadTemplateRaises(find, template, sub);
    forall steps: nat ensures RunAsWritten(ctx, rows, Start(), steps) == Start() {
      AsWrittenStuck(ctx, rows, Start(), steps);
    }
  }

  lemma BadTemplateRaises(find: string, template: string, sub: Substitute)
    requires '%' !in template
    requires sub(Wildcard.WildcardPatternAsWritten(find), true, template, "a").Err?
    ensures Propose(NameOnly, TransformAsWrittenOf(ReplaceOp(ReplaceConfig(find, template, false, false)), sub), 1, "a").Err?
  {
    var f := TransformAsWrittenOf(ReplaceOp(ReplaceConfig(find, template, false, false)), sub);
    BadTemplateTransform(find, template, sub);
    SplitPlainName();
    assert f(1, "a").Err?;
  }

  lemma SplitPlainName()
    ensures Split("a") == ("a", "")
  {
    RFindAt("a", '/', -1);
    RFindAt("a", '.', -1);
  }

  lemma BadTemplateTransform(find: string, template: string, sub: Substitute)
    requires '%' !in template
    requires sub(Wildcard.WildcardPatternAsWritten(find), true, template, "a").Err?
    ensures ApplyAsWritten(ReplaceOp(ReplaceConfig(find, template, false, false)), sub, 1, "a").Err?
  {
    Counter.InjectWithoutPercent(1, template);
  }
}
