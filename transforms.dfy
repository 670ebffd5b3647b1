/**
 * The operation the renamer applies to each name part
 * (`MainWindow.operation_function`, chosen at bulky.py:449-463), and the
 * "Replace" page (`MainWindow.replace_text`, bulky.py:513-539).
 *
 * Python's regular-expression engine is not part of this model: it is the
 * parameter `sub`, a function from (pattern, ignore case, replacement,
 * string) to the result of `re.sub`, or `Err` for the `re.error` it raises
 * on a bad pattern or a bad replacement template.
 */
module Transforms {
  import opened Wrappers
  import opened Counter
  import opened Edits
  import opened LetterCase
  import opened Wildcard

  type Substitute = (string, bool, string, string) -> Result<string, string>

  /** The "Replace" page: the two entries and the "case sensitive" and
      "regular expressions" checks. */
  datatype ReplaceConfig = ReplaceConfig(find: string, replace: string, caseSensitive: bool, useRegex: bool)

  /** bulky.py:513-539. The counter is injected into the replacement first. With
      regular expressions on, the find text is the pattern and an `re.error` gives
      back the input unchanged; with them off, the pattern is the wildcard
      translation and an `re.error` (from the replacement template) propagates. */
  function ReplaceText(cfg: ReplaceConfig, sub: Substitute, index: nat, s: string): (r: Result<string, string>)
    ensures cfg.useRegex ==> r.Ok?
    ensures cfg.useRegex && sub(cfg.find, !cfg.caseSensitive, Inject(index, cfg.replace), s).Err? ==> r == Ok(s)
    ensures cfg.useRegex && sub(cfg.find, !cfg.caseSensitive, Inject(index, cfg.replace), s).Ok? ==>
      r == sub(cfg.find, !cfg.caseSensitive, Inject(index, cfg.replace), s)
    ensures !cfg.useRegex ==>
      (exists pattern :: Parse(pattern) == Some(Translate(cfg.find))
         && r == sub(pattern, !cfg.caseSensitive, Inject(index, cfg.replace), s))
  {
    var replace := Inject(index, cfg.replace);
    if cfg.useRegex then
      match sub(cfg.find, !cfg.caseSensitive, replace, s)
      case Ok(t) => Ok(t)
      case Err(_) => Ok(s)
    else
      var pattern := WildcardPattern(cfg.find);
      sub(pattern, !cfg.caseSensitive, replace, s)
  }

  /** The four pages of the operation chooser. */
  datatype Operation =
    | ReplaceOp(replaceCfg: ReplaceConfig)
    | RemoveOp(removeCfg: RemoveConfig)
    | InsertOp(insertCfg: InsertConfig)
    | CaseOp(caseCfg: CaseConfig)

  predicate ValidOperation(op: Operation)
  {
    match op
    case RemoveOp(c) => ValidRemove(c)
    case InsertOp(c) => ValidInsert(c)
    case _ => true
  }

  /** An operation whose spin values lie in the ranges the dialog allows. */
  type ValidOp = op: Operation | ValidOperation(op) witness CaseOp(CaseConfig(false, false, false))

  /** `self.operation_function(index, string)`, with the corrected insertion and
      wildcard translation. Only a replacement with regular expressions off can raise. */
  function Apply(op: ValidOp, sub: Substitute, index: nat, s: string): (r: Result<string, string>)
    ensures op.ReplaceOp? ==> r == ReplaceText(op.replaceCfg, sub, index, s)
    ensures op.RemoveOp? ==> r == Ok(RemoveText(op.removeCfg, s))
    ensures op.InsertOp? ==> r == Ok(InsertText(op.insertCfg, index, s))
    ensures op.CaseOp? ==> r == Ok(ChangeCase(op.caseCfg, s))
    ensures r.Err? ==> op.ReplaceOp? && !op.replaceCfg.useRegex
    ensures op.RemoveOp? ==> r.Ok? && |r.value| <= |s|
    ensures op.CaseOp? ==> r.Ok? && |r.value| == |s| && Lower(r.value) == Lower(s)
  {
    match op
    case ReplaceOp(c) => ReplaceText(c, sub, index, s)
    case RemoveOp(c) => Ok(RemoveText(c, s))
    case InsertOp(c) => Ok(InsertText(c, index, s))
    case CaseOp(c) => Ok(ChangeCase(c, s))
  }

  /** bulky.py:513-539 as written: in wildcard mode the pattern comes from the
      placeholder pipeline of bulky.py:529-533. */
  function ReplaceTextAsWritten(cfg: ReplaceConfig, sub: Substitute, index: nat, s: string): (r: Result<string, string>)
    ensures cfg.useRegex ==> r == ReplaceText(cfg, sub, index, s)
    ensures !cfg.useRegex ==>
      r == sub(WildcardPatternAsWritten(cfg.find), !cfg.caseSensitive, Inject(index, cfg.replace), s)
  {
    if cfg.useRegex then ReplaceText(cfg, sub, index, s)
    else sub(WildcardPatternAsWritten(cfg.find), !cfg.caseSensitive, Inject(index, cfg.replace), s)
  }

  /** `self.operation_function(index, string)` exactly as bulky.py:449-462 wires it:
      `insert_text` and `replace_text` as written. */
  function ApplyAsWritten(op: ValidOp, sub: Substitute, index: nat, s: string): (r: Result<string, string>)
    ensures op.ReplaceOp? ==> r == ReplaceTextAsWritten(op.replaceCfg, sub, index, s)
    ensures op.RemoveOp? ==> r == Ok(RemoveText(op.removeCfg, s))
    ensures op.InsertOp? ==> r == Ok(InsertTextAsWritten(op.insertCfg, index, s))
    ensures op.CaseOp? ==> r == Ok(ChangeCase(op.caseCfg, s))
  {
    match op
    case ReplaceOp(c) => ReplaceTextAsWritten(c, sub, index, s)
    case RemoveOp(c) => Ok(RemoveText(c, s))
    case InsertOp(c) => Ok(InsertTextAsWritten(c, index, s))
    case CaseOp(c) => Ok(ChangeCase(c, s))
  }

  /** The inputs on which neither defect of the source shows: a wildcard search text
      without `~` and with no `R` right after a `?`, and an insertion away from the
      skipped slot that does not overwrite with a text of `len(s) - 1` characters or
      more. */
  predicate ClearOfDefects(op: ValidOp, index: nat, s: string)
  {
    match op
    case ReplaceOp(c) => c.useRegex || ('~' !in c.find && NoRAfterQues(c.find))
    case InsertOp(c) =>
      c.position > |s| ||
      (c.position < |s| && (!c.overwrite || |Inject(index, c.text)| < |s| - 1))
    case _ => true
  }

  /** Away from the two defects, the window's operation computes what the source's does. */
  lemma ApplyAgreesAsWritten(op: ValidOp, sub: Substitute, index: nat, s: string)
    requires ClearOfDefects(op, index, s)
    ensures Apply(op, sub, index, s) == ApplyAsWritten(op, sub, index, s)
  {
    match op
    case ReplaceOp(c) =>
      if !c.useRegex {
        AsWrittenAgreesWithWildcards(c.find);
      }
    case InsertOp(c) =>
      InsertAgreesAsWritten(c, index, s);
    case _ =>
  }
}
