# Bulky's renamer core, modelled in Dafny

Bulky is a bulk file renamer. Its main window (`MainWindow` in
`usr/lib/bulky/bulky.py`) keeps a list of loaded files. It offers four name
transforms:

- **replace**, with wildcards or a regular expression;
- **remove** a range of characters;
- **insert** or overwrite text;
- **change case**.

A counter token (`%n`, `%0n`, `%00n`, `%000n`) in the inserted or replacement
text becomes the entry's 1-based number.

On every change, the window previews each file's new name. The transform
applies to the stem, the extension or both. The window flags name collisions
and unwritable files, and turns the rename button off when anything is
flagged. The rename button renames the files one by one and keeps the list of
loaded URIs in step.

This project models that core:

| Module | What it models |
|---|---|
| `PyStr` | The Python semantics the source relies on: clamped and negative slice bounds, `str.replace`, `"{:0Nd}".format` |
| `Counter` | `inject` as written: four chained replaces |
| `Edits` | `remove_text`, and `insert_text` as written and corrected |
| `LetterCase` | `change_case` over ASCII letters |
| `Wildcard` | The wildcard-to-regex translation, as written and corrected |
| `Transforms` | `replace_text` and the dispatch to the chosen operation |
| `Scopes` | `os.path.splitext`, the stem/extension split, scopes and the rejoin |
| `Rows` | The rows of the list and the `uris` list. What adding, removing and renaming do to them |
| `Preview` | What one preview pass computes, the loop as written, and the corrected loop |
| `Session` | The `MainWindow` class. Its handlers change its fields step by step and are proved against `Rows` and `Preview` |

`Counter` also has an independent single-pass definition, `Expand`, and a proof
that the two agree.

The string transforms are pure in the source, so they are pure functions here.

The handlers mutate the window in the source, so they are methods of the class
`Session.MainWindow`. These handlers are `add_file`, `on_remove_button`,
`on_rename_button`, `preview_changes`, `on_clear_button`,
`on_operation_changed` and `on_scope_changed`. The class invariant is that the
loaded URIs are the URIs of the rows. The source relies on it whenever it
calls `self.uris.remove`.

The model follows what `bulky.py` does in these respects, which a reader might
expect otherwise:

- The "all" scope transforms the stem and the extension separately (bulky.py:489-491).
- Rows are renamed in display order, and directories are not put after their contents (bulky.py:397-405).
- A failed rename is caught and skipped, and the loop goes on with the next row (bulky.py:417-418).
- Of two rows with the same pending URI, only the later one is flagged (bulky.py:495-498).
- The counter is the 1-based row number, with no start value or increment (bulky.py:477, 509).
- The "Case" page has four modes: title, lower, upper and capitalize (bulky.py:574-582).
- An empty search text is passed to the regular-expression engine like any other (bulky.py:513-539).

Three of the source's defects are corrected in the operations the window runs.
These are listed under "## Findings": insertion (`Edits.InsertText`), the wildcard
translation (`Wildcard.WildcardPattern`) and the preview loop. The source's own
versions are modelled beside them. `Transforms.ApplyAsWritten` is the operation
exactly as the source wires it. `Transforms.ApplyAgreesAsWritten` proves that the
two give the same result on every input that `Transforms.ClearOfDefects` admits.

## Model

| member | source | states |
|---|---|---|
| PyStr.Slice | usr/lib/bulky/bulky.py:550 | A Python slice `s[i:j]`: the result is the ordinary subsequence when the bounds are in range, empty when they cross, and never longer than `s` |
| PyStr.ZeroPadRoundTrip | usr/lib/bulky/bulky.py:585-588 | `"{:0wd}".format(n)` reads back as `n` for every width |
| PyStr.ZeroPad | usr/lib/bulky/bulky.py:585-588 | The padded counter has length `max(w, digits of n)`, holds only digits, ends with the decimal of `n`, and contains no `%` or `n` |
| Counter.InjectIsExpand | usr/lib/bulky/bulky.py:584-589 | For every positive index, the four chained replaces give the same text as one left-to-right pass that expands each `%n`/`%0n`/`%00n`/`%000n` token: no replace creates or destroys another's token |
| Counter.ReplaceAfterExpand | usr/lib/bulky/bulky.py:585-588 | One more replace of the width-`k` token after the narrower ones equals the single pass over tokens up to width `k` |
| Counter.InjectToken | usr/lib/bulky/bulky.py:585-588 | Each token alone becomes the index zero-padded to its width (1 to 4) |
| Counter.InjectTokenThen | usr/lib/bulky/bulky.py:585-588 | A token at the front becomes the padded counter and the rest is injected independently |
| Counter.InjectWithoutPercent | usr/lib/bulky/bulky.py:584-589 | Text without `%` comes back unchanged |
| Counter.InjectKeepsOtherPercent | usr/lib/bulky/bulky.py:584-589 | A `%` that starts no token of width 1 to 4 (e.g. `%0000n`) is copied, and injection goes on after it |
| Counter.InjectExamples | usr/lib/bulky/bulky.py:585-588 | `%n`→`1`, `%0n`→`01`, `%0n` at 12→`12`, `%00n`→`001`, `%000n` at 7→`0007` |
| Edits.RemoveText | usr/lib/bulky/bulky.py:541-550 | The result is the name with one contiguous block taken out, and is never longer |
| Edits.RemoveInclusiveRange | usr/lib/bulky/bulky.py:542-550 | Counting from the start, 1-based positions `from..to` (inclusive) are removed |
| Edits.RemovePastEnd | usr/lib/bulky/bulky.py:543-544 | A range running past the end is cut at the last character |
| Edits.RemoveInverted | usr/lib/bulky/bulky.py:549-550 | An inverted range removes nothing |
| Edits.RemoveFromEnd | usr/lib/bulky/bulky.py:545-550 | Counting both positions from the end, characters `from` down to `to` from the end are removed |
| Edits.RemoveFromEndToStart | usr/lib/bulky/bulky.py:545-550 | With `from` counted from the end and `to` from the start, the block runs from `from` characters before the end up to position `to`, and is empty when `to` lies before it |
| Edits.RemoveFromStartToEnd | usr/lib/bulky/bulky.py:545-550 | With `from` counted from the start and `to` from the end, the block runs from position `from` up to `to` characters before the end, and is empty when they cross |
| Edits.RemoveFromEmpty | usr/lib/bulky/bulky.py:541-550 | The empty name stays empty for every setting |
| Edits.RemoveExample | usr/lib/bulky/bulky.py:541-550 | From 1 to 3 on `abcdef` gives `def` |
| Edits.AsWrittenAppendsPastEnd | usr/lib/bulky/bulky.py:557-561 | As written, from position `len` on, the text is appended, or prepended when counting from the end, overwrite or not |
| Edits.AsWrittenOverwriteLongText | usr/lib/bulky/bulky.py:565-567 | As written, overwriting with a text at least `len - 1` long yields the text alone |
| Edits.AsWrittenOverwriteDropsPrefix | usr/lib/bulky/bulky.py:565-567 | As written, `abcdef` overwritten at 4 by `XYZWV` becomes `XYZWV`; corrected, `abcXYZWV` |
| Edits.AsWrittenSkipsSlot | usr/lib/bulky/bulky.py:557-564 | As written, position 3 on `abc` appends like position 4, and from the end it prepends; corrected, `abXc` and `aXbc` |
| Edits.InsertionPoint | usr/lib/bulky/bulky.py:556-564 | From the start, position `k` leaves `k - 1` characters before the text; from the end, `k - 1` after it; past the end the text goes at the end (or the front) |
| Edits.Splice | usr/lib/bulky/bulky.py:569-572 | The result keeps the name before the point, then the text, then the rest of the name, less the overwritten characters when overwriting |
| Edits.InsertText | usr/lib/bulky/bulky.py:552-572 | The injected text is spliced into the name at the insertion point, as `Spliced` spells out, overwriting only inside the name |
| Edits.InsertThenRemove | usr/lib/bulky/bulky.py:571-572 | Inserting keeps every character: taking the inserted text back out gives the name |
| Edits.OverwriteLength | usr/lib/bulky/bulky.py:565-570 | Overwriting inside the name keeps its length, or grows it to the end of the text |
| Edits.InsertAgreesAsWritten | usr/lib/bulky/bulky.py:552-572 | The corrected and as-written versions agree past the end of the name, and before its last position when inserting, or when overwriting with a text shorter than `len - 1` |
| Edits.InsertExample | usr/lib/bulky/bulky.py:557-561 | `ab` with `X` at position 10 gives `abX` in both versions |
| Edits.InsertNothing | usr/lib/bulky/bulky.py:571-572 | Inserting the empty text without overwrite changes no name |
| LetterCase.ChangeCase | usr/lib/bulky/bulky.py:574-582 | Only the case of letters changes. Title wins over lower, lower over upper, and capitalizing is the fallback. The result has the shape of the chosen mode |
| LetterCase.Title | usr/lib/bulky/bulky.py:576 | `str.title`: a letter is upper-cased exactly when the character before it is not a letter |
| LetterCase.Capitalize | usr/lib/bulky/bulky.py:582 | `str.capitalize`: the first character upper-cased and the rest lower-cased |
| LetterCase.TitleIsTitled | usr/lib/bulky/bulky.py:576 | A title-cased name starts each run of letters with the only capital in it |
| LetterCase.TitleIdempotent | usr/lib/bulky/bulky.py:576 | Title-casing twice is title-casing once |
| LetterCase.LowerIdempotent | usr/lib/bulky/bulky.py:578 | Lower-casing twice is lower-casing once |
| LetterCase.UpperIdempotent | usr/lib/bulky/bulky.py:580 | Upper-casing twice is upper-casing once |
| LetterCase.CapitalizeIdempotent | usr/lib/bulky/bulky.py:582 | Capitalizing twice is capitalizing once |
| LetterCase.TitleExample | usr/lib/bulky/bulky.py:576 | `it's a.b` title-cases to `It'S A.B` |
| Wildcard.EscapeAppend | usr/lib/bulky/bulky.py:531 | `re.escape` works character by character: the escape of a concatenation is the concatenation of the escapes |
| Wildcard.EscapeIsRender | usr/lib/bulky/bulky.py:531 | For a pattern without wildcards, `re.escape` gives exactly the regular expression of its literal atoms |
| Wildcard.ParseRender | usr/lib/bulky/bulky.py:529-533 | The rendered regular expression reads back as the same wildcard atoms |
| Wildcard.RenderInjective | usr/lib/bulky/bulky.py:529-533 | Two different patterns never render to the same regular expression |
| Wildcard.WildcardPattern | usr/lib/bulky/bulky.py:529-533 | The regular expression for a pattern means `*`→`.+`, `?`→`.` and every other character literally |
| Wildcard.AsWrittenAgrees | usr/lib/bulky/bulky.py:529-533 | Without wildcards and `~`, the placeholder pipeline as written escapes the pattern exactly as the direct translation does |
| Wildcard.AsWrittenAgreesWithWildcards | usr/lib/bulky/bulky.py:529-533 | For every search text without `~` in which no `?` is directly followed by `R` (so `Report*` is covered), wildcards included, the placeholder pipeline as written gives the direct translation: `*` means `.+`, `?` means `.`, and everything else is literal |
| Wildcard.AsWrittenPlaceholderClash | usr/lib/bulky/bulky.py:529-533 | As written, the literal search text `~~~REGSTAR~~~` compiles to `.+`; the direct translation reads it as 13 literal characters |
| Transforms.ReplaceText | usr/lib/bulky/bulky.py:513-539 | The counter is injected into the replacement first. In regular-expression mode the result is always a name, and an `re.error` gives the name back unchanged. In wildcard mode the engine gets a pattern that reads back as the translated wildcard, and its error is passed on |
| Transforms.Apply | usr/lib/bulky/bulky.py:449-463 | The chosen page decides the transform: replace, remove, the corrected insert or change case. Only a wildcard replace can raise, remove never lengthens a name, and change case keeps its letters |
| Transforms.ReplaceTextAsWritten | usr/lib/bulky/bulky.py:513-539 | In regular-expression mode it is `ReplaceText`. In wildcard mode the engine gets the pattern of the placeholder pipeline as written |
| Transforms.ApplyAsWritten | usr/lib/bulky/bulky.py:449-463 | The operation as the source wires it: `insert_text` and `replace_text` as written, remove and change case as in `Apply` |
| Transforms.ApplyAgreesAsWritten | usr/lib/bulky/bulky.py:449-572 | Unless the search text has `~` or an `R` right after a `?`, or the insertion hits the skipped slot or overwrites with a text of `len - 1` or more, the window's operation and the source's give the same result |
| Scopes.RFind | usr/lib/bulky/bulky.py:482 | `str.rfind`: the last index of the character, or -1 |
| Scopes.SplitExt | usr/lib/bulky/bulky.py:482 | `os.path.splitext`: the two parts concatenate to the name, and the extension is empty or one dot followed by no dot or `/` |
| Scopes.Split | usr/lib/bulky/bulky.py:482-484 | The extension without its dot holds no dot and no `/` |
| Scopes.Join | usr/lib/bulky/bulky.py:492 | The dot comes back only with a non-empty extension |
| Scopes.Propose | usr/lib/bulky/bulky.py:482-492 | Name-only transforms the stem, extension-only the extension, and "all" transforms both separately and joins the two results. An exception of the transform is passed on |
| Scopes.JoinSplit | usr/lib/bulky/bulky.py:482-492 | Splitting and rejoining gives the name back exactly when it does not end in a bare dot |
| Scopes.IdentityKeepsName | usr/lib/bulky/bulky.py:482-492 | Under every scope, the identity transform keeps exactly the names that do not end in a bare dot |
| Scopes.SplitJoin | usr/lib/bulky/bulky.py:482-492 | A stem and a non-empty extension, joined, split back into the same parts |
| Scopes.NameOnlyKeepsExtension | usr/lib/bulky/bulky.py:485-486 | Transforming the stem keeps the extension |
| Scopes.SplitExample | usr/lib/bulky/bulky.py:482-484 | `report.tar.gz` splits as `report.tar` and `gz`; `.bashrc` has no extension |
| Rows.RemoveFirst | usr/lib/bulky/bulky.py:367 | `list.remove`: one occurrence of the URI is taken out, or nothing when it is absent |
| Rows.RemoveFirstDistinct | usr/lib/bulky/bulky.py:367 | In a list without duplicates, `remove` takes out exactly that URI and keeps the list duplicate-free |
| Rows.RemoveKeepsMatch | usr/lib/bulky/bulky.py:365-368 | Removing the selected rows and their URIs keeps the URI list equal, as a multiset, to the URIs of the rows |
| Rows.RemoveExactly | usr/lib/bulky/bulky.py:365-368 | In a duplicate-free URI list, removal takes out exactly the URIs that selected rows carry |
| Rows.RenamedRow | usr/lib/bulky/bulky.py:410-415 | A row is changed only when its new name differs and the filesystem accepts it. It then takes the new URI and the new name |
| Rows.RenameAccepted | usr/lib/bulky/bulky.py:410-415 | An accepted rename gives the row its new URI and name, and moves its URI to the end of the list |
| Rows.RenameRefused | usr/lib/bulky/bulky.py:406-418 | An unchanged name or a refused rename leaves the rows and the URIs as they were |
| Rows.RowsAfterRename | usr/lib/bulky/bulky.py:405-418 | After the first `k` rows of the loop, exactly those rows are renamed and the others are untouched |
| Rows.RenameKeepsMatch | usr/lib/bulky/bulky.py:405-418 | Renaming keeps the URI list in step with the rows |
| Rows.RenameKeepsDistinct | usr/lib/bulky/bulky.py:413-414 | Renaming keeps the URI list duplicate-free when every accepted rename yields a URI not already loaded |
| Preview.Pendings | usr/lib/bulky/bulky.py:494 | Row `i` has the pending URI of its proposed name, or none when the transform raised |
| Preview.Flags | usr/lib/bulky/bulky.py:495-506 | Each row's flag comes from the pending URIs and its two writability answers |
| Preview.RecordedHolds | usr/lib/bulky/bulky.py:473-507 | `renamed_uris` holds exactly the pending URIs of the rows seen so far |
| Preview.FlagMeaning | usr/lib/bulky/bulky.py:495-506 | A row is a collision exactly when an earlier row has the same pending URI. So the first of them is never flagged. A collision takes precedence over an unwritable directory, which takes precedence over an unwritable file |
| Preview.EveryPendingRecorded | usr/lib/bulky/bulky.py:507 | Every pending URI is recorded, flagged or not |
| Preview.AlertMeaning | usr/lib/bulky/bulky.py:474-506 | The info bar is hidden exactly when no row is flagged. When shown, it names the last flagged row and its flag |
| Preview.AllFine | usr/lib/bulky/bulky.py:475-506 | The rename button stays on exactly when no row seen so far is flagged |
| Preview.ShownRows | usr/lib/bulky/bulky.py:493 | The rows seen so far show their proposed name in the "New name" column; the others are untouched |
| Preview.ShownRowsUris | usr/lib/bulky/bulky.py:493 | Showing new names changes no row's URI |
| Preview.PassStep | usr/lib/bulky/bulky.py:478-511 | One more row of the corrected pass: its new name, its recorded URI, its flag by precedence, the button and the info bar |
| Preview.PassRow | usr/lib/bulky/bulky.py:478-511 | The corrected loop body changes only the current row |
| Preview.PassMeaning | usr/lib/bulky/bulky.py:472-511 | The corrected pass shows every proposed name and records every pending URI. It turns the button off exactly when a row is flagged and leaves the info bar on the last flagged row |
| Preview.PassChain | usr/lib/bulky/bulky.py:478-511 | Step-by-step agreement of the loop body with the meaning carries over to the whole pass |
| Preview.StepWith | usr/lib/bulky/bulky.py:478-511 | As written, a raising transform leaves the loop where it was; otherwise it moves to the next row |
| Preview.AsWrittenStuck | usr/lib/bulky/bulky.py:478-511 | As written, once the transform raises on a row, no number of passes leaves that row |
| Preview.AsWrittenAgrees | usr/lib/bulky/bulky.py:472-511 | When no transform raises, the loop as written records the same URIs and button state as the corrected pass |
| Preview.AsWrittenLoopsOnBadTemplate | usr/lib/bulky/bulky.py:510-511 | With wildcards and a replacement the engine rejects, such as `\q` (any replacement without `%`), whatever the search text, the loop as written, with the operation wired as the source wires it, keeps a row named `a` at its first row for ever |
| Session.MainWindow.constructor | usr/lib/bulky/bulky.py:163-175 | The window starts with no files, names-only scope, the replace page, the button on and the info bar hidden |
| Session.MainWindow.AddFile | usr/lib/bulky/bulky.py:435-447 | A file that cannot be queried or is already loaded is ignored. Otherwise its URI is appended and a row showing its name is inserted. The URI list stays duplicate-free and in step with the rows |
| Session.MainWindow.RemoveRows | usr/lib/bulky/bulky.py:358-368 | The selected rows go, and their URIs are removed one by one. In a duplicate-free list exactly their URIs go |
| Session.MainWindow.OnRemoveButton | usr/lib/bulky/bulky.py:358-369 | Removal followed by a preview of the rows that are left, under the scope and page that were chosen, which stay as they were |
| Session.MainWindow.PreviewChanges | usr/lib/bulky/bulky.py:472-511 | After the preview, the window shows what `Preview.PassMeaning` describes for its scope and operation, and the URIs are unchanged |
| Session.MainWindow.PreviewWith | usr/lib/bulky/bulky.py:472-511 | The same for any way of proposing names |
| Session.MainWindow.RenameAll | usr/lib/bulky/bulky.py:396-419 | The rows and URIs become what renaming every row in order gives. The lists stay in step, and duplicate-free when every new URI is fresh. The button is turned off |
| Session.MainWindow.Clear | usr/lib/bulky/bulky.py:389-391 | Both lists are emptied |
| Session.MainWindow.SetOperation | usr/lib/bulky/bulky.py:449-463 | Choosing another operation previews again with it |
| Session.MainWindow.SetScope | usr/lib/bulky/bulky.py:465-467 | Choosing another scope previews again with it |
| Session.PreviewPass | usr/lib/bulky/bulky.py:476-511 | The loop computes the corrected pass over all rows |
| Session.RenamePass | usr/lib/bulky/bulky.py:403-418 | The loop computes the rows and URIs of renaming every row in order |
| Session.PassResult | usr/lib/bulky/bulky.py:472-511 | What the pass leaves is the previewed state and keeps the class invariant |
| Session.RemoveKeeps | usr/lib/bulky/bulky.py:365-368 | What `RemoveRows` leaves keeps the class invariant, and takes out exactly the selected URIs from a duplicate-free list |
| Session.RenameKeeps | usr/lib/bulky/bulky.py:405-418 | What `RenameAll` leaves keeps the class invariant, and has no duplicate when every new URI is fresh |
| Session.AddKeepsMatch | usr/lib/bulky/bulky.py:442-447 | Inserting a row anywhere and appending its URI keeps the two lists in step |

## Left out

- The GTK window is not modelled: dialogs, menus, the about box, key bindings, the tree view and the widget signals. Settings read from widgets are parameters. The spin ranges 1..100 of the "Remove" and "Insert" pages are preconditions (`ValidRemove`, `ValidInsert`).
- Gio is modelled by the oracle `Rows.FileSystem`: the pending URI, the two writability answers and the outcome of `set_display_name`. Loading a `FileObject` is the `info` argument of `AddFile`: `None` when the file cannot be queried, and its display name otherwise.
- Transforms.Apply: the window runs the corrected insertion (`Edits.InsertText`). On the inputs of the first two Findings rows it shows other names than `bulky.py`. `Transforms.ApplyAsWritten` is the source's version, and `Transforms.ApplyAgreesAsWritten` states where the two agree.
- Transforms.ReplaceText: wildcard mode uses the corrected translation (`Wildcard.WildcardPattern`). For a search text containing `~`, or an `R` right after a `?`, the source's pattern can differ, as with `~~~REGSTAR~~~` and `?REGSTAR*`. `Transforms.ReplaceTextAsWritten` is the source's version, and `Wildcard.AsWrittenAgreesWithWildcards` states where the two agree.
- Rows.FileSystem: its answers are total. In the source, `get_pending_uri` raises for a file without a parent, such as a root (bulky.py:115-117). `writable` raises when the parent's `FileObject` could not be queried (bulky.py:75-104, 133-143). Such an exception would also hang the preview loop as written. The model lets only the name transform raise.
- Python's `re` engine is the oracle `Transforms.Substitute`. It is given the pattern, the case flag, the replacement and the name, and returns the result or an error. Pattern matching itself is not modelled. The model only proves which pattern is handed over and what it means.
- LetterCase.ChangeCase: only ASCII letters change case. Unicode case mapping, special casings and `str.title`'s treatment of other scripts are not modelled.
- Session.MainWindow.AddFile: the sorted tree store decides where a new row goes. The model takes that position as an input.
- Session.MainWindow.RenameAll: the duplicate-free result holds only under `FreshRenames`. Whether a rename target is taken depends on the filesystem at that moment, which a fixed oracle cannot express. The sorted tree store would also move a renamed row to its new place, and so change the counters of later rows; the model keeps every row where it was, and renaming does not re-sort.
- The `ValueError` that `self.uris.remove` would raise for a URI not in the list cannot arise: the class invariant `Valid` rules it out.
- The info bar's message text is reduced to its kind (`Status`) and the URI it names. Translation and display paths are not modelled.
- The handlers compute on local copies of the lists and store the result in the fields once at the end, rather than updating the tree store row by row. Nothing else reads the fields in between.
- `usr/lib/bulky/common.py` (threads, main-loop helpers, file icons) is not part of this model. Neither is the Caja extension, which shells out.
- `load_files` and its command-line handling are not modelled, nor are the messages printed to standard output.

## Findings

| source | as written | input that shows it | evidently intended | confidence | as-written member | corrected member |
|---|---|---|---|---|---|---|
| usr/lib/bulky/bulky.py:565-567 | Overwriting with a text at least `len(s) - 1` long returns the text alone, dropping the characters before the insertion point | `abcdef`, overwrite at position 4 with `XYZWV`, gives `XYZWV` | `abcXYZWV`: the prefix is kept and the name grows to the end of the text | high, not executed | Edits.AsWrittenOverwriteDropsPrefix | Edits.InsertText |
| usr/lib/bulky/bulky.py:557-564 | The append branch is taken once the 0-based `from_index` reaches `len(s) - 1`, that is from the 1-based position `len(s)` on. So the slot before the last character cannot be reached, nor, counting from the end, the slot after the first one | `abc`, insert `X` at position 3, gives `abcX` (the same as position 4); from the end it gives `Xabc` | `abXc`, and from the end `aXbc` | medium, not executed | Edits.AsWrittenSkipsSlot | Edits.InsertText |
| usr/lib/bulky/bulky.py:529-533 | The wildcard placeholders are ordinary text, so a search text that contains one, or that completes one next to a wildcard, is mistranslated | search for `~~~REGSTAR~~~` in wildcard mode: the pattern becomes `.+` and matches every non-empty name | the pattern matches the 13 characters literally | high, not executed | Wildcard.AsWrittenPlaceholderClash | Wildcard.WildcardPattern |
| usr/lib/bulky/bulky.py:508-511 | When the transform raises, the exception is printed and the loop runs again on the same row, for ever | wildcard replace of `a` by `\q` on a file named `a`: `re.sub` raises a bad-escape error on every pass | the failing row is reported and the loop moves on to the next row | high, not executed | Preview.AsWrittenLoopsOnBadTemplate | Session.MainWindow.PreviewChanges |
