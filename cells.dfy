/**
 * The cell store of the in-memory spreadsheet: `CellInfo` records, the
 * `_cells` dictionary, the mutations `_updateCell` applies, and the value an
 * AST has against the cached values of the store.
 */
module Cells {
  import opened Wrappers
  import opened Ordered
  import opened Formula

  /**
   * `CellInfo`.  `ast` None is `null`: an empty cell.  `dependents` holds the
   * ids of the cells whose formulas referred to this one when they were last
   * evaluated, in insertion order.
   */
  datatype CellInfo = CellInfo(id: CellId, value: real, ast: Option<Ast>, dependents: seq<CellId>)

  /** `new CellInfo(id)` */
  function NewCell(id: CellId): CellInfo {
    CellInfo(id, 0.0, None, [])
  }

  /** `cell.isEmpty()` */
  predicate IsEmpty(c: CellInfo) {
    c.ast.None?
  }

  /** `cell.formula`: the formula rendered relative to the cell itself, '' when empty. */
  function FormulaText(render: (Ast, string) -> string, c: CellInfo): (f: string)
    ensures IsEmpty(c) ==> f == ""
  {
    if c.ast.Some? then render(c.ast.value, c.id) else ""
  }

  /** `_cells`: cell id to cell. */
  type Store = Dict<CellId, CellInfo>

  /** `_undos`: cell id to the cell as it was before its first change (None: it was absent). */
  type UndoLog = Dict<CellId, Option<CellInfo>>

  /** Every cell is filed under its own id and lists each dependent once. */
  ghost predicate WellFormed(s: Store) {
    s.Valid() && forall k :: k in s.m ==> s.m[k].id == k && NoDup(s.m[k].dependents)
  }

  /** Snapshots are of well-formed cells filed under their own ids. */
  ghost predicate WellFormedLog(u: UndoLog) {
    u.Valid() && forall k :: k in u.m && u.m[k].Some? ==> u.m[k].value.id == k && NoDup(u.m[k].value.dependents)
  }

  lemma PutWellFormed(s: Store, k: CellId, c: CellInfo)
    requires WellFormed(s) && c.id == k && NoDup(c.dependents)
    ensures WellFormed(s.Put(k, c))
  {
  }

  lemma RemoveWellFormed(s: Store, k: CellId)
    requires WellFormed(s)
    ensures WellFormed(s.Remove(k))
  {
  }

  lemma PutWellFormedLog(u: UndoLog, k: CellId, c: Option<CellInfo>)
    requires WellFormedLog(u) && (c.Some? ==> c.value.id == k && NoDup(c.value.dependents))
    ensures WellFormedLog(u.Put(k, c))
  {
  }

  /** `this._cells[id] ?? new CellInfo(id)` */
  function Current(s: Store, id: CellId): (c: CellInfo)
    ensures id !in s.m ==> c == NewCell(id)
  {
    if id in s.m then s.m[id] else NewCell(id)
  }

  /** The cached value a reference reads: 0 for a cell that is not in the store yet. */
  function ValueAt(s: Store, id: CellId): real {
    Current(s, id).value
  }

  /** The value `_evalAst` computes for a formula against the cached values of s. */
  function ValueOf(s: Store, a: Ast): real
    decreases a
  {
    match a
    case Num(v) => v
    case Ref(id) => ValueAt(s, id)
    case App(fn, kids) => Apply(fn, ValuesOf(s, kids))
  }

  function ValuesOf(s: Store, kids: seq<Ast>): (vs: seq<real>)
    ensures |vs| == |kids|
    decreases kids
  {
    if kids == [] then [] else ValuesOf(s, kids[..|kids| - 1]) + [ValueOf(s, kids[|kids| - 1])]
  }

  /** `_evalAst` on a possibly `null` formula. */
  function EvalValue(s: Store, ast: Option<Ast>): real {
    if ast.Some? then ValueOf(s, ast.value) else 0.0
  }

  /** A formula's value depends on the cached values alone, not on the rest of the store. */
  lemma {:induction false} ValueOfAgree(s1: Store, s2: Store, a: Ast)
    requires forall id :: ValueAt(s1, id) == ValueAt(s2, id)
    ensures ValueOf(s1, a) == ValueOf(s2, a)
    decreases a
  {
    match a
    case Num(_) =>
    case Ref(id) =>
    case App(_, kids) => ValuesOfAgree(s1, s2, kids);
  }

  lemma {:induction false} ValuesOfAgree(s1: Store, s2: Store, kids: seq<Ast>)
    requires forall id :: ValueAt(s1, id) == ValueAt(s2, id)
    ensures ValuesOf(s1, kids) == ValuesOf(s2, kids)
    decreases kids
  {
    if kids != [] {
      ValuesOfAgree(s1, s2, kids[..|kids| - 1]);
      ValueOfAgree(s1, s2, kids[|kids| - 1]);
    }
  }

  /** A formula's value depends only on the cached values of the cells it refers to. */
  lemma {:induction false} ValueOfRefsAgree(s1: Store, s2: Store, a: Ast)
    requires forall id :: id in RefList(a) ==> ValueAt(s1, id) == ValueAt(s2, id)
    ensures ValueOf(s1, a) == ValueOf(s2, a)
    decreases a
  {
    match a
    case Num(_) =>
    case Ref(id) =>
    case App(_, kids) => ValuesOfRefsAgree(s1, s2, kids);
  }

  lemma {:induction false} ValuesOfRefsAgree(s1: Store, s2: Store, kids: seq<Ast>)
    requires forall id :: id in RefListKids(kids) ==> ValueAt(s1, id) == ValueAt(s2, id)
    ensures ValuesOf(s1, kids) == ValuesOf(s2, kids)
    decreases kids
  {
    if kids != [] {
      var n := |kids| - 1;
      assert RefListKids(kids) == RefListKids(kids[..n]) + RefList(kids[n]);
      ValuesOfRefsAgree(s1, s2, kids[..n]);
      ValueOfRefsAgree(s1, s2, kids[n]);
    }
  }

  /** The mutators handed to `_updateCell` in the source, one per lambda. */
  datatype Update =
    | SetAst(ast: Option<Ast>)              // cell => cell.ast = ast
    | SetValue(value: real)                 // cell => cell.value = value
    | AddDependent(dependent: CellId)       // cell => cell.dependents.add(baseCellId)
    | RemoveDependent(dependent: CellId)    // cell => cell.dependents.delete(baseCellId)
    | DeleteCell                            // cell => delete this._cells[cell.id]

  /** The cell after a mutator has run on it (DeleteCell acts on the store, not the cell). */
  function Updated(c: CellInfo, u: Update): (r: CellInfo)
    ensures r.id == c.id
    ensures NoDup(c.dependents) ==> NoDup(r.dependents)
    ensures !u.SetAst? ==> r.ast == c.ast
    ensures !u.SetValue? ==> r.value == c.value
  {
    match u
    case SetAst(a) => c.(ast := a)
    case SetValue(v) => c.(value := v)
    case AddDependent(d) => c.(dependents := Add(c.dependents, d))
    case RemoveDependent(d) =>
      WithoutNoDup(c.dependents, {d});
      c.(dependents := Without(c.dependents, {d}))
    case DeleteCell => c
  }

  /** The store after `_evalAst` of a formula of `base` has run: base is a dependent of every cell it refers to. */
  function Linked(s: Store, id: CellId, base: CellId): CellInfo {
    Updated(Current(s, id), AddDependent(base))
  }

  /** A cell after `_removeAsDependent` has removed base from its dependents. */
  function Unlinked(s: Store, id: CellId, base: CellId): CellInfo {
    Updated(Current(s, id), RemoveDependent(base))
  }

  /** dependents only grew by appending: what was there keeps its place. */
  predicate Extends(old_deps: seq<CellId>, deps: seq<CellId>) {
    |old_deps| <= |deps| && deps[..|old_deps|] == old_deps
  }

  /** A dependent recorded before is still recorded after appending. */
  lemma ExtendsHas(old_deps: seq<CellId>, deps: seq<CellId>, x: CellId)
    requires Extends(old_deps, deps) && x in old_deps
    ensures x in deps
  {
    assert x in deps[..|old_deps|];
  }
}
