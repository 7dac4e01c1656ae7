# Spreadsheet engine and form validators, modelled in Dafny

This project models two parts of a small web spreadsheet:

- **The in-memory spreadsheet engine** (`MemSpreadsheet`). Every cell holds an
  optional formula, a cached value and the ids of the cells whose formulas
  refer to it (its *dependents*). The engine supports these operations:
  - `eval` stores a formula and re-evaluates the cell and, recursively, its
    dependents. A circular reference fails.
  - `query`, `clear`, `delete` and `copy`.
  - `dump` lists the non-empty cells with their formulas.
  - `undo` rolls back every cell touched since the last operation, using the
    per-operation undo log that `_updateCell` keeps.
- **The web front end's helpers.**
  - The validators of the update form: `isEmpty`, the `FIELD_INFOS` rules
    with their two regular expressions, `validateField`, `validateFields` and
    `validateUpdate`.
  - The table helpers that lay out a dump as an HTML table:
    `getNoofRowsAndCols`, `createEmptyArray`, `getFirstRow` and
    `fillDataArray`.

How the source maps onto Dafny:

- **The engine** is the class `MemSheet.MemSpreadsheet`.
  - Its fields are `cells` (`_cells`) and `undos` (`_undos`). Both are
    insertion-ordered dictionaries (`Ordered.Dict`), because `dump` and `undo`
    iterate JavaScript objects in key-insertion order.
  - A cell is a value (`Cells.CellInfo`). Changing a cell in place is
    replacing its entry.
  - Every operation is a method. Each one is proved against pure functions:
    - `Touched` / `TouchAll` describe `_updateCell`.
    - `Replay` describes `undo`.
    - `ValueOf` describes `_evalAst`.
    - `PrereqsIn` describes `_makePrereqs`.
    - `DumpOrder` describes `dump`.
  - The lemmas of `Rollback`, `Updates`, `Evaluation` and `Export` prove what
    those functions guarantee.
- **The formula parser, `ast.toString(base)` and `cellRefToCellId`** are not
  part of this model. They are parameters of the constructor.
- **The validators** operate on an `ErrorBag`, which is the caller's `errors`
  object. Each validator is proved equal to a pure specification
  (`FieldCheck`, `FieldsCheck`, `UpdateCheck`) whose acceptance condition is
  proved separately.
- **The regular expressions** are modelled as matchers. Each is proved to
  accept exactly a plainly stated shape.

Source paths in the table are relative to the repository root. The sort in
`dump` (`Array.prototype.sort` with `Comparator`) is modelled as an insertion
sort; only its result, the ids in lexicographic order, matters.

The doc comment of `dump` (`mem-spreadsheet.mjs:123-132`) promises that cells
come in order of dependency depth. The second phase (`:161-177`) places a
cell as soon as any one of its prerequisites has been listed, so a cell with
prerequisites at different depths can come before a deeper prerequisite. The
model keeps the code's behaviour. `Export.DumpNotByDepth` exhibits a store
(a = 1, b = 2, d = b, c = a + d) whose dump lists c before its prerequisite d.

## Model

| member | source | states |
|---|---|---|
| Formula.Apply | submit/prj2-sol/src/mem-spreadsheet.mjs:302-309 | `-` with one operand negates it; `min` and `max` return one of their operands that is no greater (no smaller) than every operand |
| Formula.Least | submit/prj2-sol/src/mem-spreadsheet.mjs:307 | `Math.min` of a non-empty list is an element of the list and a lower bound of it |
| Formula.Greatest | submit/prj2-sol/src/mem-spreadsheet.mjs:308 | `Math.max` of a non-empty list is an element of the list and an upper bound of it |
| Ordered.Dict.Put | submit/prj2-sol/src/mem-spreadsheet.mjs:188 | `obj[k] = v`: k now reads v, every other key reads as before, an existing key keeps its place and a new key goes last |
| Ordered.Dict.Remove | submit/prj2-sol/src/mem-spreadsheet.mjs:191 | `delete obj[k]`: k is gone, other keys read as before and keep their order |
| Ordered.Assign | submit/prj2-sol/src/mem-spreadsheet.mjs:236 | `Object.assign(a, b)`: b's entries override a's, and b's new keys follow a's keys in b's order |
| Ordered.EmptyDict | submit/prj2-sol/src/mem-spreadsheet.mjs:20-21 | `{}` has no keys and reads `undefined` everywhere |
| Cells.FormulaText | submit/prj2-sol/src/mem-spreadsheet.mjs:288 | the `formula` getter of an empty cell is `''` |
| Cells.Current | submit/prj2-sol/src/mem-spreadsheet.mjs:218 | a missing cell reads as a fresh `CellInfo` |
| Cells.Updated | submit/prj2-sol/src/mem-spreadsheet.mjs:219 | each mutator keeps the cell's id, keeps its dependents free of duplicates, and changes only the part it is about |
| Cells.ValueOfAgree | submit/prj2-sol/src/mem-spreadsheet.mjs:242-261 | a formula's value depends only on the cells' cached values, not on their formulas or dependents lists: two stores that agree on every cached value give it the same value |
| Cells.ValueOfRefsAgree | submit/prj2-sol/src/mem-spreadsheet.mjs:242-261 | a formula's value depends only on the cached values of the cells it refers to: two stores that agree on those give it the same value |
| Rollback.Restore | submit/prj2-sol/src/mem-spreadsheet.mjs:186-193 | one step of `undo` puts the snapshot back (or deletes the cell when none), changes no other cell, and re-adds a restored key last |
| Rollback.ReplayAt | submit/prj2-sol/src/mem-spreadsheet.mjs:185-194 | after `undo`, a logged cell is its snapshot and an unlogged cell is untouched |
| Rollback.ReplaySound | submit/prj2-sol/src/mem-spreadsheet.mjs:185-194 | `undo` with well-formed snapshots leaves a well-formed store |
| Rollback.ReplayKeys | submit/prj2-sol/src/mem-spreadsheet.mjs:185-194 | replaying the log removes from the key order exactly the cells logged as absent |
| Rollback.UndoRestores | submit/prj2-sol/src/mem-spreadsheet.mjs:184-194 | when the log covers every change since the start of an operation, `undo` gives back exactly the starting store, key order included |
| Rollback.CoveredTrans | submit/prj2-sol/src/mem-spreadsheet.mjs:211-215 | the undo logs of two consecutive steps cover both steps together |
| Updates.TouchedAt | submit/prj2-sol/src/mem-spreadsheet.mjs:213-221 | `_updateCell` logs a cell's snapshot on its first touch only, replaces that cell by its mutated version (or removes it), and changes no other cell or log entry |
| Updates.TouchedKeys | submit/prj2-sol/src/mem-spreadsheet.mjs:213-221 | a new cell and a new log entry go last; deleting a cell keeps the other keys in order |
| Updates.TouchedSound | submit/prj2-sol/src/mem-spreadsheet.mjs:213-221 | `_updateCell` keeps the store and the log well formed |
| Updates.TouchAllCellAt | submit/prj2-sol/src/mem-spreadsheet.mjs:249-270 | repeating `_updateCell` over a formula's references replaces each referenced cell by its mutated version and leaves every other cell alone |
| Updates.TouchAllLogAt | submit/prj2-sol/src/mem-spreadsheet.mjs:214-216 | a referenced cell is logged with its state before the first touch; nothing else is logged |
| Updates.TouchAllCovered | submit/prj2-sol/src/mem-spreadsheet.mjs:211-221 | every change the repeated `_updateCell` makes is covered by its log |
| Updates.UpdatedTwice | submit/prj2-sol/src/mem-spreadsheet.mjs:252 | adding (or removing) the same dependent twice is doing it once |
| Updates.TouchAllClosed | submit/prj2-sol/src/mem-spreadsheet.mjs:225-240 | evaluation only mentions ids of a fixed finite set, which bounds the recursion of `_evalCell` |
| Updates.LinkGrows | submit/prj2-sol/src/mem-spreadsheet.mjs:249-253 | evaluating a formula keeps every formula and only appends to dependents lists |
| Updates.LinkKeepsValues | submit/prj2-sol/src/mem-spreadsheet.mjs:249-253 | linking dependents changes no cached value |
| Updates.LinkDeps | submit/prj2-sol/src/mem-spreadsheet.mjs:249-253 | after `_evalAst(base, ast)` base is a dependent of every referenced cell, and it is the only dependent added |
| Updates.UnlinkDeps | submit/prj2-sol/src/mem-spreadsheet.mjs:263-271 | `_removeAsDependent` removes base from the dependents of every referenced cell and adds none |
| Updates.SetValueStep | submit/prj2-sol/src/mem-spreadsheet.mjs:227 | storing a computed value changes that one value and nothing else, and is logged |
| Updates.SetAstStep | submit/prj2-sol/src/mem-spreadsheet.mjs:35 | storing a new formula changes that formula and nothing else, and is logged |
| Updates.UnlinkStep | submit/prj2-sol/src/mem-spreadsheet.mjs:263-271 | `_removeAsDependent` is logged, keeps every formula and value, and unlinks base from the references |
| Evaluation.AssignAgrees | submit/prj2-sol/src/mem-spreadsheet.mjs:236 | after merging a dependent's report, every reported value is the cell's cached value |
| Evaluation.AssignKeeps | submit/prj2-sol/src/mem-spreadsheet.mjs:236 | after the merge, every unreported cell keeps its starting value |
| Evaluation.AssignClosed | submit/prj2-sol/src/mem-spreadsheet.mjs:230-237 | after the merge, the report stays closed under dependents |
| Evaluation.LoopStart | submit/prj2-sol/src/mem-spreadsheet.mjs:226-229 | before the loop of `_evalCell`, the value is the formula's value over the starting values, the cell is linked to its references, and the report holds the cell alone |
| Evaluation.LoopStep | submit/prj2-sol/src/mem-spreadsheet.mjs:230-237 | one turn of the dependents loop keeps the loop invariant |
| Evaluation.LoopDone | submit/prj2-sol/src/mem-spreadsheet.mjs:238-239 | once every dependent is visited, `_evalCell` has succeeded, with the outcome `EvalOk` describes |
| Evaluation.PreparedCells | submit/prj2-sol/src/mem-spreadsheet.mjs:33-36 | before `_evalCell`, `eval` has stored the new formula, changed no other formula and no value, and unlinked the cell from the old formula's references |
| Evaluation.PreparedCovered | submit/prj2-sol/src/mem-spreadsheet.mjs:31-36 | every change `eval` makes before `_evalCell` is in the fresh log |
| Evaluation.EvalFinish | submit/prj2-sol/src/mem-spreadsheet.mjs:29-38 | a successful `eval` stores the formula; the cell's value is the formula's value; reported values are stored, other values are unchanged, and the dependents of reported cells are reported; every reported cell caches its own formula's value over the final values and is linked to its references; every newly recorded dependent is reported and refers to the cell it is recorded in; the cell is linked to its new references, not to itself, and no longer to references only the old formula had |
| Evaluation.ReportStep | submit/prj2-sol/src/mem-spreadsheet.mjs:236 | merging a dependent's report into the report of the cell keeps every promise of the report: values stored, others unchanged, new dependents reported, reported cells other than the cell fresh and linked |
| Evaluation.KeptFresh | submit/prj2-sol/src/mem-spreadsheet.mjs:230-236 | a reported cell that a later dependent's report leaves out keeps caching its formula's value: none of its references changed value, or the report would include the cell |
| Evaluation.IdFresh | submit/prj2-sol/src/mem-spreadsheet.mjs:226-239 | when the loop ends, the cell's value, computed before the loop, is still its formula's value over the final values |
| Evaluation.MergeStep | submit/prj2-sol/src/mem-spreadsheet.mjs:80-85 | one turn of `delete`'s loop keeps the merged report stored, closed under dependents, fresh and linked, reports the re-evaluated dependent, and keeps every earlier entry |
| Evaluation.MergeClosed | submit/prj2-sol/src/mem-spreadsheet.mjs:80-85 | the merged report stays closed under dependents: a dependent recorded before was reported before, and a new one was reported by the evaluation that recorded it |
| Export.PrereqsIn | submit/prj2-sol/src/mem-spreadsheet.mjs:199-209 | `_makePrereqs` has an entry for each non-empty cell, in key order |
| Export.PrereqsMeaning | submit/prj2-sol/src/mem-spreadsheet.mjs:196-209 | c is listed as a prerequisite of d iff both cells are non-empty and d is a dependent of c; each is listed once |
| Export.SortIds | submit/prj2-sol/src/mem-spreadsheet.mjs:154-159 | the sort keeps exactly the ids it is given |
| Export.SortIdsSorted | submit/prj2-sol/src/mem-spreadsheet.mjs:154-159 | the sort by `Comparator` puts ids in lexicographic order, keeps their number, and keeps them free of duplicates |
| Export.BelowTotal | submit/prj2-sol/src/mem-spreadsheet.mjs:155-156 | of two different ids one is `<` the other |
| Export.BelowTransitive | submit/prj2-sol/src/mem-spreadsheet.mjs:155-156 | JavaScript string `<` is transitive |
| Export.PhaseOne | submit/prj2-sol/src/mem-spreadsheet.mjs:145-159 | phase 1 of `dump` lists exactly the cells without prerequisites and leaves exactly the others waiting, each once |
| Export.DumpListsLiveOnce | submit/prj2-sol/src/mem-spreadsheet.mjs:115-180 | `dump` lists only non-empty cells, each at most once |
| Export.DumpLeadingBlock | submit/prj2-sol/src/mem-spreadsheet.mjs:118-159 | the leading block of `dump` is, in lexicographic order, exactly the non-empty cells that no non-empty cell has as a dependent |
| Export.DumpAfterPrereq | submit/prj2-sol/src/mem-spreadsheet.mjs:118-177 | every cell after the leading block comes after some listed cell that has it as a dependent |
| Export.DumpClosed | submit/prj2-sol/src/mem-spreadsheet.mjs:161-177 | a non-empty cell that `dump` leaves out is a dependent of no listed cell |
| Export.CollectedAll | submit/prj2-sol/src/mem-spreadsheet.mjs:199-209 | when the loops of `_makePrereqs` finish, the object equals `PrereqsIn` of the store |
| Export.DiamondDump | submit/prj2-sol/src/mem-spreadsheet.mjs:137-180 | for a = 1, b = 2, d = b, c = a + d, `dump` lists a, b, c, d |
| Export.DumpNotByDepth | submit/prj2-sol/src/mem-spreadsheet.mjs:123-177 | counterexample to the documented depth order: c (depth 2) is listed before its own prerequisite d (depth 1) |
| MemSheet.StripDollar | submit/prj2-sol/src/mem-spreadsheet.mjs:51 | the `$`-free id holds exactly the id's characters other than `$` |
| MemSheet.Queried | submit/prj2-sol/src/mem-spreadsheet.mjs:49-56 | `query` files an empty cell under the `$`-free id when there is none, changes no cell's contents, and keeps the store well formed |
| Graph.FailureMeansCycle | submit/prj2-sol/src/mem-spreadsheet.mjs:230-236 | a circular reference reached from the cell, or a missing cell reached from it, means the graph reached from the cell is not acyclic |
| Graph.ReachesKept | submit/prj2-sol/src/mem-spreadsheet.mjs:242-261 | evaluation steps never change which cells reach which: a new dependent is recorded only under a cell its formula refers to |
| Graph.AcyclicStep | submit/prj2-sol/src/mem-spreadsheet.mjs:231-235 | a dependent of a cell whose reached graph is acyclic is itself acyclic with the cell added to the working stack |
| Graph.CircularBelow | submit/prj2-sol/src/mem-spreadsheet.mjs:231-235 | a circular reference met while evaluating a dependent is a cell reached from the cell itself, on the working stack or on a cycle |
| MemSheet.DependentOutcome | submit/prj2-sol/src/mem-spreadsheet.mjs:231-235 | the success and failure conditions of `_evalCell` on a dependent carry over to the cell whose loop called it |
| MemSheet.DeleteLoopStep | submit/prj2-sol/src/mem-spreadsheet.mjs:79-87 | one successful turn of `delete`'s loop adds the dependent to the report and changes no formula but that dependent's, and the store the new log undoes to has changed only the earlier dependents' formulas |
| MemSheet.EvalOutcome | submit/prj2-sol/src/mem-spreadsheet.mjs:29-43 | after `_evalCell` the log covers every change, so `undo` restores the starting store; no cell disappears; on success the outcome is the one `Evaluated` describes |
| MemSheet.DeleteUndone | submit/prj2-sol/src/mem-spreadsheet.mjs:185-194 | undoing a `delete` of a cell without dependents restores the cell, but puts it last in the key order |
| MemSheet.SortEntriesIds | submit/prj2-sol/src/mem-spreadsheet.mjs:154-159 | sorting the `[cellid, formula]` pairs is sorting their ids |
| MemSheet.MemSpreadsheet.constructor | submit/prj2-sol/src/mem-spreadsheet.mjs:19-22 | both dictionaries start empty |
| MemSheet.MemSpreadsheet.UpdateCell | submit/prj2-sol/src/mem-spreadsheet.mjs:211-221 | the new state is `Touched` of the old one; the returned cell is the mutated cell |
| MemSheet.MemSpreadsheet.Query | submit/prj2-sol/src/mem-spreadsheet.mjs:46-56 | returns the cell's value and formula, `0` and `''` for a missing cell; the store grows by `Queried`; the log is unchanged |
| MemSheet.MemSpreadsheet.Clear | submit/prj2-sol/src/mem-spreadsheet.mjs:58-64 | both dictionaries are empty afterwards |
| MemSheet.MemSpreadsheet.Undo | submit/prj2-sol/src/mem-spreadsheet.mjs:184-194 | the store becomes `Replay` of the log over the store; the log stays |
| MemSheet.MemSpreadsheet.EvalNode | submit/prj2-sol/src/mem-spreadsheet.mjs:242-261 | returns the formula's value over the cached values and links base into every reference, in order |
| MemSheet.MemSpreadsheet.EvalKids | submit/prj2-sol/src/mem-spreadsheet.mjs:259 | `kids.map(...)` returns the operands' values, left to right, and links their references |
| MemSheet.MemSpreadsheet.EvalAst | submit/prj2-sol/src/mem-spreadsheet.mjs:242-245 | a `null` formula evaluates to 0 and touches nothing |
| MemSheet.MemSpreadsheet.RemoveAsDependent | submit/prj2-sol/src/mem-spreadsheet.mjs:263-271 | the new state is the old one with base removed from the dependents of every reference |
| MemSheet.MemSpreadsheet.Eval | submit/prj2-sol/src/mem-spreadsheet.mjs:24-44 | fails with `SYNTAX` iff the formula does not parse; any failure leaves the store as it was; succeeds whenever no cell reached from the cell is missing, on the working stack or on a cycle; a `CIRCULAR_REF` names a reached cell that is the cell itself or on a cycle, and a type error means a reached cell is missing; success is `Evaluated` (the formula stored, every reported cell caching its formula's value over the new values, other values and formulas unchanged) and leaves an undo log that restores the old store |
| MemSheet.MemSpreadsheet.SetFormula | submit/prj2-sol/src/mem-spreadsheet.mjs:33-38 | after parsing: store the formula, unlink the old references, run `_evalCell`; it succeeds when the graph reached from the cell is acyclic and fully stored, fails only with a circular reference or a missing cell reached from the cell, and failure leaves the store as it was |
| MemSheet.MemSpreadsheet.EvalCell | submit/prj2-sol/src/mem-spreadsheet.mjs:225-240 | succeeds when every cell reached from the cell is stored, off the working stack and on no cycle; a `CIRCULAR_REF` names a reached cell on the stack or on a cycle; a type error means a reached cell is missing; success is `EvalOk`: the cell's value is its formula's value over the starting values; every reported cell caches its formula's value over the final values and is linked to its references; unreported values are unchanged; the report is closed under dependents and avoids the working set; every change is logged |
| MemSheet.MemSpreadsheet.EvalDependents | submit/prj2-sol/src/mem-spreadsheet.mjs:230-239 | the loop over the live dependents list ends in `EvalOk`, always when the reached graph is acyclic and stored; a failure is a circular reference or a missing cell reached from the cell |
| MemSheet.MemSpreadsheet.VisitDependent | submit/prj2-sol/src/mem-spreadsheet.mjs:231-236 | a dependent on the working stack (or the cell itself) fails with `CIRCULAR_REF` naming it and leaves the store as it is; a dependent no longer stored is a type error; otherwise its report is merged and the loop invariant advances by one; an acyclic, stored reached graph gives success |
| MemSheet.MemSpreadsheet.Delete | submit/prj2-sol/src/mem-spreadsheet.mjs:66-90 | a missing cell gives `{}` and no change; a cell without dependents is removed and logged; on success every dependent is reported, the report is closed under dependents (so every transitive dependent is reported), every reported cell caches its formula's value over the new values, and others keep their values; the deleted cell has no formula afterwards unless a dependent's id names it, and only the re-evaluated dependents' formulas change; because every `eval` resets `_undos`, after re-evaluating dependents an `undo()` does not bring the deleted formula back |
| MemSheet.MemSpreadsheet.ReevaluateAll | submit/prj2-sol/src/mem-spreadsheet.mjs:79-87 | on success every dependent is in the merged report, which is closed under dependents and whose cells cache their formulas' values; whatever the outcome, only the dependents' formulas change; on success the log undoes only the last dependent's evaluation, so the store it restores has changed no formula but those of the earlier dependents |
| MemSheet.MemSpreadsheet.Reevaluate | submit/prj2-sol/src/mem-spreadsheet.mjs:81-85 | re-evaluating one dependent from its own formula adds it to the report and keeps the earlier entries, changes no other formula, and leaves a log that undoes exactly that `eval`, back to the store as `query` left it |
| MemSheet.MemSpreadsheet.Copy | submit/prj2-sol/src/mem-spreadsheet.mjs:94-113 | an empty source deletes the destination; a source missing under its raw id is a type error; otherwise the source formula rendered for the destination is evaluated there: a `SYNTAX` failure iff it does not parse, success whenever the graph reached from the destination is acyclic and stored, a `CIRCULAR_REF` naming a reached cell on a cycle, a type error only for a reached missing cell, and on success `Evaluated` with an undo log that restores the store as `query` left it |
| MemSheet.MemSpreadsheet.MakePrereqs | submit/prj2-sol/src/mem-spreadsheet.mjs:196-209 | returns `PrereqsIn` of the store |
| MemSheet.MemSpreadsheet.AddPrereqs | submit/prj2-sol/src/mem-spreadsheet.mjs:204-206 | the inner loop adds the cell to the entry of each of its live dependents |
| MemSheet.MemSpreadsheet.Dump | submit/prj2-sol/src/mem-spreadsheet.mjs:115-180 | returns the `[cellid, formula]` pairs of `DumpOrder`; only the cells it queries are added to the store, and the log is unchanged |
| MemSheet.MemSpreadsheet.ListRoots | submit/prj2-sol/src/mem-spreadsheet.mjs:142-151 | lists the entries without prerequisites in key order; the others stay in `dependencies` |
| MemSheet.MemSpreadsheet.ListRest | submit/prj2-sol/src/mem-spreadsheet.mjs:161-177 | the outer loop of phase 2 (over the growing list) lists what `Grow` lists |
| MemSheet.MemSpreadsheet.ListTurn | submit/prj2-sol/src/mem-spreadsheet.mjs:168-175 | one turn of phase 2 appends the waiting cells that need the current element, in key order, and removes them from `dependencies` |
| Patterns.PlusMatches | submit/prj4-sol/src/ss-server.mjs:264 | a single `+` atom matches exactly the non-empty strings of its class |
| Patterns.CellIdPatternMatches | submit/prj4-sol/src/ss-server.mjs:271 | `/^[a-z]\d\d?$/i` accepts exactly one ASCII letter of either case followed by one or two digits |
| Patterns.NamePatternMatches | submit/prj4-sol/src/ss-server.mjs:264 | `/^[\w\- ]+$/` accepts exactly non-empty strings of word characters, hyphens and spaces |
| Validation.TrimStart | submit/prj4-sol/src/ss-server.mjs:395 | drops exactly the leading white space |
| Validation.TrimEnd | submit/prj4-sol/src/ss-server.mjs:395 | drops exactly the trailing white space |
| Validation.IsEmptyBlank | submit/prj4-sol/src/ss-server.mjs:393-396 | `isEmpty` holds iff the value is undefined, null, or all white space |
| Validation.FieldPassesAccepts | submit/prj4-sol/src/ss-server.mjs:257-302 | a field passes iff its value is a non-blank string that satisfies the field's rule |
| Validation.FieldCheck | submit/prj4-sol/src/ss-server.mjs:281-302 | true iff the field passes; on rejection exactly the field's own error entry is set (to "must be specified" when empty); on acceptance errors are untouched |
| Validation.ForbidAt | submit/prj4-sol/src/ss-server.mjs:343-350 | each forbidden field that is present gets its "must not be specified" message |
| Validation.ForbidElse | submit/prj4-sol/src/ss-server.mjs:343-350 | the first loop touches only the forbidden fields' entries |
| Validation.RequireEmpty | submit/prj4-sol/src/ss-server.mjs:351 | the second loop leaves errors empty iff they were empty and every required field passes |
| Validation.RequireAt | submit/prj4-sol/src/ss-server.mjs:351 | every required field that fails gets an entry |
| Validation.FieldsCheckOk | submit/prj4-sol/src/ss-server.mjs:342-353 | `validateFields` is true iff errors started empty, no forbidden field is present, and every required field passes |
| Validation.FieldsCheckForbidden | submit/prj4-sol/src/ss-server.mjs:342-353 | a present forbidden field that is not also required ends with its "must not be specified" message |
| Validation.FieldsCheckRequired | submit/prj4-sol/src/ss-server.mjs:342-353 | every failing required field ends with an error entry |
| Validation.ParseAct | submit/prj4-sol/src/ss-server.mjs:309-339 | the empty string is a missing action, the four `ACTS` names are their own cases, anything else is unknown |
| Validation.UpdateCheck | submit/prj4-sol/src/ss-server.mjs:305-340 | a missing action gets "Action must be specified."; an unknown action gets `Invalid action "` followed by its name; both are rejected |
| Validation.UpdateAccepts | submit/prj4-sol/src/ss-server.mjs:305-340 | `validateUpdate` accepts iff errors start empty and the action's fields are right: `clear` has neither cellId nor formula; `deleteCell` has a valid cellId and no formula; `updateCell` has a valid cellId and a non-blank formula; `copyCell` has a cell id in both |
| Validation.CopyAccepts | submit/prj4-sol/src/ss-server.mjs:319-332 | `copyCell` accepts iff errors start empty and both cellId and formula are cell ids |
| Validation.ErrorBag.constructor | submit/prj4-sol/src/ss-server.mjs:308 | a fresh `errors` object is empty |
| Validation.ValidateField | submit/prj4-sol/src/ss-server.mjs:284-302 | result and new errors are `FieldCheck` of the old errors |
| Validation.ValidateFields | submit/prj4-sol/src/ss-server.mjs:342-353 | result and new errors are `FieldsCheck` of the old errors |
| Validation.ValidateUpdate | submit/prj4-sol/src/ss-server.mjs:308-340 | result and new errors are `UpdateCheck` of the old errors |
| TableView.RowNumberDigits | submit/prj4-sol/src/ss-server.mjs:219 | `parseInt(id.substr(1))` of a cell id is its one or two digits read in decimal |
| TableView.ColumnNumber | submit/prj4-sol/src/ss-server.mjs:220 | `charCodeAt(0) - 96` numbers the lower-case letters 1 to 26 |
| TableView.GetNoofRowsAndCols | submit/prj4-sol/src/ss-server.mjs:238-248 | `[10, 10]` for no ids; otherwise at least 10 rows and 10 columns, enough for every id, and each count is 10 or attained by some id |
| TableView.GreatestLetter | submit/prj4-sol/src/ss-server.mjs:244-246 | the last letter after `cols.sort()` is one of the letters and no smaller than any of them |
| TableView.GreatestRow | submit/prj4-sol/src/ss-server.mjs:244-245 | the last row after the numeric sort is one of the rows and numerically no smaller than any of them |
| TableView.CreateEmptyArray | submit/prj4-sol/src/ss-server.mjs:227-229 | a fresh rowsNo × colsNo table of `<td>&nbsp;</td>` |
| TableView.GetFirstRow | submit/prj4-sol/src/ss-server.mjs:230-236 | the name header followed by one header per column, lettered `A`, `B`, … |
| TableView.LastAtFinal | submit/prj4-sol/src/ss-server.mjs:215-226 | an id with no later id at its place is the one whose value is shown there |
| TableView.FillDataArray | submit/prj4-sol/src/ss-server.mjs:215-226 | each place holds the queried value of the last id that lands there, and a place no id lands on keeps its entry |

## Left out

- The formula parser and `ast.toString(base)` (`expr-parser.mjs`) and
  `cellRefToCellId` (`util.mjs`) are not part of this model. They are
  function parameters; a parse failure is `None`.
- The persistent spreadsheet, the web services and the rest of the server
  are not modelled. This covers routing, Mustache rendering, `buildTable`,
  `mapError`, `wsErrors`, `trimValues` and `requestUrl`. They do I/O or only
  glue the modelled helpers together.
- Cell values are `real`. JavaScript's floating point (rounding, `NaN`,
  `Infinity`) is not modelled. A division by zero, and an arity the parser
  never produces, give 0.
- Property lookups that JavaScript resolves through the prototype chain (an
  id such as `constructor`) are not modelled. Ids are plain dictionary keys.
- Sharing a mutable `CellInfo` object between `_cells` and a caller is not
  modelled, because cells are values. The engine's own copies (the undo
  snapshots) are independent anyway.
- `MemSheet.MemSpreadsheet.Delete`: a failure while re-evaluating the
  dependents leaves earlier changes in place, as the source does. The
  contract states no more about the failing case than that the store stays
  valid. On success after re-evaluations it states the formulas of the
  store that `undo()` would restore, not that store's values or key order.
- `MemSheet.MemSpreadsheet.Copy`: a destination with dependents is deleted
  and its dependents re-evaluated through `Delete`. The contract covers
  that case only through the success clause (reported values are stored and
  each reported cell caches its formula's value).
- `MemSheet.MemSpreadsheet.EvalCell`: success is promised when the graph
  reached from the cell is acyclic and stored. Its edges are the recorded
  dependents and the formula references. A cycle of formula references that
  no evaluation has recorded is not followed by the source, so the converse
  (every reached cycle fails) is not stated. The same holds for
  `EvalDependents`, `VisitDependent`, `SetFormula`, `Eval` and `Copy`.
- `Export.BelowTotal`: ids are compared by Unicode code point. JavaScript
  compares UTF-16 code units, which orders ids the same way when all their
  characters lie in the Basic Multilingual Plane, as cell ids do.
- `TableView.GetNoofRowsAndCols`: requires every id to have the cell-id
  shape, which the validators guarantee for stored cells. Both sorts are
  modelled by their last element, the greatest letter and the numerically
  greatest row.
- `TableView.GetFirstRow`: requires at most 31 columns, because
  `toUpperCase` of characters beyond `z` is not modelled. For 27 to 31
  columns the headers are the characters after `z`, unchanged.
- `TableView.FillDataArray`: requires each id to have a lower-case letter
  and a row from 1 to the table's height. An upper-case letter or row 0
  would make the source write outside the table or throw. `connector.query`
  is a function from id to the displayed value.
- JavaScript lists integer-like object keys (such as `"7"`) before all other
  keys, in numeric order. This is not modelled: every key keeps its insertion
  order. Cell ids begin with a letter, so they are never integer-like.
- The `working` set of `_evalCell` is passed by value. The source adds the
  cell before the loop and removes it after, so on a normal return the set
  is as it was on entry; in the model this holds by construction.
- Regular-expression case folding (`i` flag) covers ASCII letters only.
- Form values are strings, `undefined` or `null`. Other value types are not
  modelled.
