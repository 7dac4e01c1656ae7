/**
 * `_updateCell` as a function of the engine state, its repetition over
 * the references of a formula (what `_evalAst` and `_removeAsDependent` do
 * to the store), and the relations between an evaluation's start and end
 * states that `_evalCell` keeps.
 */
module Updates {
  import opened Wrappers
  import opened Ordered
  import opened Formula
  import opened Cells
  import opened Rollback

  /** The two dictionaries of a `MemSpreadsheet`. */
  datatype State = State(cells: Store, undos: UndoLog)

  ghost predicate Sound(st: State) {
    WellFormed(st.cells) && WellFormedLog(st.undos)
  }

  /**
   * `_updateCell(id, fn)`: snapshot the cell on its first touch since the
   * log was reset, create an empty cell if there is none, then run the
   * mutator on it.  The delete mutator removes the entry under the cell's
   * own id, which is `id` in a well-formed store.
   */
  function Touched(st: State, id: CellId, upd: Update): State {
    var undos := if id in st.undos.m then st.undos else st.undos.Put(id, st.cells.Get(id));
    var cells := if id in st.cells.m then st.cells else st.cells.Put(id, NewCell(id));
    if upd.DeleteCell? then State(cells.Remove(id), undos)
    else State(cells.Put(id, Updated(cells.m[id], upd)), undos)
  }

  /**
   * `_updateCell` key by key: the cell's first snapshot is logged, the cell
   * is replaced by its mutated version (or removed), and no other cell or
   * log entry changes.
   */
  lemma TouchedAt(st: State, id: CellId, upd: Update, k: CellId)
    ensures var r := Touched(st, id, upd);
      && r.cells.Get(k) == (if k != id then st.cells.Get(k)
                            else if upd.DeleteCell? then None
                            else Some(Updated(Current(st.cells, id), upd)))
      && r.undos.Get(k) == (if k != id || id in st.undos.m then st.undos.Get(k) else Some(st.cells.Get(k)))
  {
  }

  /** A new log entry and a new cell go last; a deleted cell leaves the others in order. */
  lemma TouchedKeys(st: State, id: CellId, upd: Update)
    requires st.cells.Valid() && st.undos.Valid()
    ensures var r := Touched(st, id, upd);
      && r.undos.Valid() && r.undos.keys == Add(st.undos.keys, id)
      && r.cells.Valid()
      && r.cells.keys == (if upd.DeleteCell? then Without(st.cells.keys, {id}) else Add(st.cells.keys, id))
  {
    if upd.DeleteCell? && id !in st.cells.keys {
      WithoutAppend(st.cells.keys, [id], {id});
    }
  }

  /** `_updateCell` keeps both dictionaries well formed. */
  lemma TouchedSound(st: State, id: CellId, upd: Update)
    requires Sound(st)
    ensures Sound(Touched(st, id, upd))
  {
    PutWellFormedLog(st.undos, id, st.cells.Get(id));
    var cells := if id in st.cells.m then st.cells else st.cells.Put(id, NewCell(id));
    PutWellFormed(st.cells, id, NewCell(id));
    if upd.DeleteCell? {
      RemoveWellFormed(cells, id);
    } else {
      PutWellFormed(cells, id, Updated(cells.m[id], upd));
    }
  }

  /** The cell mutation `_updateCell` performs for each reference of a formula, in reference order. */
  function TouchAll(st: State, ids: seq<CellId>, upd: Update): State
    decreases |ids|
  {
    if ids == [] then st else Touched(TouchAll(st, ids[..|ids| - 1], upd), ids[|ids| - 1], upd)
  }

  lemma {:induction false} TouchAllSound(st: State, ids: seq<CellId>, upd: Update)
    requires Sound(st)
    ensures Sound(TouchAll(st, ids, upd))
    decreases |ids|
  {
    if ids != [] {
      TouchAllSound(st, ids[..|ids| - 1], upd);
      TouchedSound(TouchAll(st, ids[..|ids| - 1], upd), ids[|ids| - 1], upd);
    }
  }

  /** Running a mutator twice is running it once. */
  lemma UpdatedTwice(c: CellInfo, upd: Update)
    requires !upd.DeleteCell?
    ensures Updated(Updated(c, upd), upd) == Updated(c, upd)
  {
    if upd.RemoveDependent? {
      WithoutWithout(c.dependents, {upd.dependent}, {upd.dependent});
      assert {upd.dependent} + {upd.dependent} == {upd.dependent};
    }
  }

  /** A referenced cell is replaced by its mutated version (a fresh one when absent); any other cell is unchanged. */
  lemma {:induction false} TouchAllCellAt(st: State, ids: seq<CellId>, upd: Update, k: CellId)
    requires !upd.DeleteCell?
    ensures TouchAll(st, ids, upd).cells.Get(k) == if k in ids then Some(Updated(Current(st.cells, k), upd)) else st.cells.Get(k)
    decreases |ids|
  {
    if ids != [] {
      var pre := ids[..|ids| - 1];
      var last := ids[|ids| - 1];
      TouchAllCellAt(st, pre, upd, k);
      TouchedAt(TouchAll(st, pre, upd), last, upd, k);
      assert k in ids <==> k in pre || k == last;
      if k == last && k in pre {
        UpdatedTwice(Current(st.cells, k), upd);
      }
    }
  }

  lemma TouchAllCells(st: State, ids: seq<CellId>, upd: Update)
    requires !upd.DeleteCell?
    ensures forall k :: k in ids ==> TouchAll(st, ids, upd).cells.Get(k) == Some(Updated(Current(st.cells, k), upd))
    ensures forall k :: k !in ids ==> TouchAll(st, ids, upd).cells.Get(k) == st.cells.Get(k)
  {
    forall k {
      TouchAllCellAt(st, ids, upd, k);
    }
  }

  /** A touched cell is logged on its first touch only; nothing else is logged. */
  lemma {:induction false} TouchAllLogAt(st: State, ids: seq<CellId>, upd: Update, k: CellId)
    requires !upd.DeleteCell?
    ensures TouchAll(st, ids, upd).undos.Get(k) == if k in ids && k !in st.undos.m then Some(st.cells.Get(k)) else st.undos.Get(k)
    decreases |ids|
  {
    if ids != [] {
      var pre := ids[..|ids| - 1];
      var last := ids[|ids| - 1];
      TouchAllLogAt(st, pre, upd, k);
      TouchedAt(TouchAll(st, pre, upd), last, upd, k);
      assert k in ids <==> k in pre || k == last;
      if k == last && k !in pre {
        TouchAllCellAt(st, pre, upd, k);
      }
    }
  }

  lemma TouchAllLog(st: State, ids: seq<CellId>, upd: Update)
    requires !upd.DeleteCell?
    ensures forall k :: k in ids && k !in st.undos.m ==> TouchAll(st, ids, upd).undos.Get(k) == Some(st.cells.Get(k))
    ensures forall k :: k !in ids || k in st.undos.m ==> TouchAll(st, ids, upd).undos.Get(k) == st.undos.Get(k)
  {
    forall k {
      TouchAllLogAt(st, ids, upd, k);
    }
  }

  /** New cells and new log entries go last, in reference order. */
  lemma {:induction false} TouchAllKeys(st: State, ids: seq<CellId>, upd: Update)
    requires !upd.DeleteCell? && st.cells.Valid() && st.undos.Valid()
    ensures TouchAll(st, ids, upd).cells.keys == AddAll(st.cells.keys, ids)
    ensures TouchAll(st, ids, upd).undos.keys == AddAll(st.undos.keys, ids)
    ensures TouchAll(st, ids, upd).cells.Valid() && TouchAll(st, ids, upd).undos.Valid()
    decreases |ids|
  {
    if ids != [] {
      TouchAllKeys(st, ids[..|ids| - 1], upd);
      TouchedKeys(TouchAll(st, ids[..|ids| - 1], upd), ids[|ids| - 1], upd);
    }
  }

  /** The repeated `_updateCell` only changes what it logs. */
  lemma TouchAllCovered(st: State, ids: seq<CellId>, upd: Update)
    requires !upd.DeleteCell? && st.cells.Valid() && st.undos.Valid()
    ensures var r := TouchAll(st, ids, upd); Covered(st.cells, st.undos, r.cells, r.undos)
  {
    TouchAllCells(st, ids, upd);
    TouchAllLog(st, ids, upd);
    TouchAllKeys(st, ids, upd);
  }

  /** TouchAll over a concatenation is TouchAll twice. */
  lemma {:induction false} TouchAllAppend(st: State, a: seq<CellId>, b: seq<CellId>, upd: Update)
    ensures TouchAll(st, a + b, upd) == TouchAll(TouchAll(st, a, upd), b, upd)
    decreases |b|
  {
    if b == [] {
      assert a + b == a;
    } else {
      assert (a + b)[..|a + b| - 1] == a + b[..|b| - 1];
      TouchAllAppend(st, a, b[..|b| - 1], upd);
    }
  }

  /** Every id of the store, of every dependents list and of every formula lies in U. */
  ghost predicate Closed(s: Store, U: set<CellId>) {
    forall k :: k in s.m ==>
      && k in U
      && (forall x :: x in s.m[k].dependents ==> x in U)
      && (forall x :: x in RefsOf(s.m[k].ast) ==> x in U)
  }

  /** All the ids the store mentions. */
  ghost function Universe(s: Store): (U: set<CellId>)
    ensures Closed(s, U)
  {
    s.m.Keys
      + (set k, x | k in s.m && x in s.m[k].dependents :: x)
      + (set k, x | k in s.m && x in RefsOf(s.m[k].ast) :: x)
  }

  /** Some set of ids closes the store. */
  lemma ClosingSet(s: Store) returns (U: set<CellId>)
    ensures Closed(s, U)
  {
    U := Universe(s);
  }

  /** Touching ids that lie in U with a mutator that names only ids in U keeps the store closed. */
  lemma TouchAllClosed(st: State, ids: seq<CellId>, upd: Update, U: set<CellId>)
    requires !upd.DeleteCell? && Closed(st.cells, U)
    requires forall k :: k in ids ==> k in U
    requires upd.AddDependent? ==> upd.dependent in U
    requires upd.SetAst? ==> forall x :: x in RefsOf(upd.ast) ==> x in U
    ensures Closed(TouchAll(st, ids, upd).cells, U)
  {
    var r := TouchAll(st, ids, upd);
    forall k | k in r.cells.m
      ensures k in U
      ensures forall x :: x in r.cells.m[k].dependents ==> x in U
      ensures forall x :: x in RefsOf(r.cells.m[k].ast) ==> x in U
    {
      TouchAllCellAt(st, ids, upd, k);
      assert r.cells.Get(k) == Some(r.cells.m[k]);
    }
  }

  /** Every cell of s0 is still stored in s, its dependents list only appended to. */
  ghost predicate Grows(s0: Store, s: Store) {
    forall k :: k in s0.m ==> k in s.m && Extends(s0.m[k].dependents, s.m[k].dependents)
  }

  /** A dependent recorded in s and not in s0 is filed under a cell its formula refers to. */
  ghost predicate NewLinksRefer(s0: Store, s: Store) {
    forall k, x :: k in s.m && x in s.m[k].dependents && !(k in s0.m && x in s0.m[k].dependents) ==>
      k in RefsOf(Current(s, x).ast)
  }

  /**
   * An evaluation from (s0, u0) to (s, u): it logged every change, only
   * appended to dependents lists, recorded a new dependent only under a
   * cell its formula refers to, and changed no formula.
   */
  ghost predicate Evolves(s0: Store, u0: UndoLog, s: Store, u: UndoLog) {
    && Covered(s0, u0, s, u)
    && Grows(s0, s)
    && NewLinksRefer(s0, s)
    && (forall k :: Current(s, k).ast == Current(s0, k).ast)
  }

  lemma EvolvesRefl(s: Store, u: UndoLog)
    ensures Evolves(s, u, s, u)
  {
    CoveredRefl(s, u);
  }

  lemma EvolvesTrans(s0: Store, u0: UndoLog, s1: Store, u1: UndoLog, s2: Store, u2: UndoLog)
    requires Evolves(s0, u0, s1, u1) && Evolves(s1, u1, s2, u2)
    ensures Evolves(s0, u0, s2, u2)
  {
    CoveredTrans(s0, u0, s1, u1, s2, u2);
    GrowsTrans(s0, s1, s2);
    NewLinksTrans(s0, s1, s2);
  }

  lemma GrowsTrans(s0: Store, s1: Store, s2: Store)
    requires Grows(s0, s1) && Grows(s1, s2)
    ensures Grows(s0, s2)
  {
    forall k | k in s0.m
      ensures k in s2.m && Extends(s0.m[k].dependents, s2.m[k].dependents)
    {
      var a, b, c := s0.m[k].dependents, s1.m[k].dependents, s2.m[k].dependents;
      assert c[..|a|] == c[..|b|][..|a|];
    }
  }

  lemma NewLinksTrans(s0: Store, s1: Store, s2: Store)
    requires NewLinksRefer(s0, s1) && NewLinksRefer(s1, s2)
    requires forall k :: Current(s2, k).ast == Current(s1, k).ast
    ensures NewLinksRefer(s0, s2)
  {
    forall k, x | k in s2.m && x in s2.m[k].dependents && !(k in s0.m && x in s0.m[k].dependents)
      ensures k in RefsOf(Current(s2, x).ast)
    {
      assert Current(s2, x).ast == Current(s1, x).ast;
    }
  }

  /** Adding base as a dependent to cells its formula refers to is an evaluation step. */
  lemma LinkEvolves(st: State, ids: seq<CellId>, base: CellId)
    requires st.cells.Valid() && st.undos.Valid()
    requires forall k :: k in ids ==> k in RefsOf(Current(st.cells, base).ast)
    ensures var r := TouchAll(st, ids, AddDependent(base)); Evolves(st.cells, st.undos, r.cells, r.undos)
  {
    TouchAllCovered(st, ids, AddDependent(base));
    var r := TouchAll(st, ids, AddDependent(base));
    LinkGrows(st, ids, base);
    LinkDeps(st, ids, base);
    assert Current(r.cells, base).ast == Current(st.cells, base).ast;
  }

  /** Linking keeps every formula and only appends to dependents lists. */
  lemma LinkGrows(st: State, ids: seq<CellId>, base: CellId)
    ensures var r := TouchAll(st, ids, AddDependent(base));
      && (forall k :: Current(r.cells, k).ast == Current(st.cells, k).ast)
      && (forall k :: k in st.cells.m ==> k in r.cells.m && Extends(st.cells.m[k].dependents, r.cells.m[k].dependents))
  {
    TouchAllCells(st, ids, AddDependent(base));
    var r := TouchAll(st, ids, AddDependent(base));
    forall k ensures Current(r.cells, k).ast == Current(st.cells, k).ast {
      assert r.cells.Get(k).Some? ==> Current(r.cells, k) == r.cells.Get(k).value;
    }
    forall k | k in st.cells.m
      ensures k in r.cells.m && Extends(st.cells.m[k].dependents, r.cells.m[k].dependents)
    {
      assert r.cells.Get(k).Some?;
    }
  }

  /** Cached values are untouched by linking and unlinking: a formula reads the same values before and after. */
  lemma KeepsValues(st: State, ids: seq<CellId>, upd: Update)
    requires !upd.SetValue? && !upd.DeleteCell?
    ensures forall k :: ValueAt(TouchAll(st, ids, upd).cells, k) == ValueAt(st.cells, k)
  {
    TouchAllCells(st, ids, upd);
    var r := TouchAll(st, ids, upd);
    forall k ensures ValueAt(r.cells, k) == ValueAt(st.cells, k) {
      assert r.cells.Get(k).Some? ==> Current(r.cells, k) == r.cells.Get(k).value;
    }
  }

  lemma LinkKeepsValues(st: State, ids: seq<CellId>, base: CellId)
    ensures forall k :: ValueAt(TouchAll(st, ids, AddDependent(base)).cells, k) == ValueAt(st.cells, k)
  {
    KeepsValues(st, ids, AddDependent(base));
  }

  /**
   * Linking records base as a dependent of every referenced cell, and
   * records nothing else: a dependent that was not there before is base,
   * filed under one of the references.
   */
  lemma LinkDeps(st: State, ids: seq<CellId>, base: CellId)
    ensures var r := TouchAll(st, ids, AddDependent(base)).cells;
      && (forall k :: k in ids ==> k in r.m && base in r.m[k].dependents)
      && (forall k, x :: k in r.m && x in r.m[k].dependents ==>
            (k in st.cells.m && x in st.cells.m[k].dependents) || (x == base && k in ids))
  {
    TouchAllCells(st, ids, AddDependent(base));
    var r := TouchAll(st, ids, AddDependent(base)).cells;
    forall k | k in ids ensures k in r.m && base in r.m[k].dependents {
      assert r.Get(k).Some?;
    }
    forall k, x | k in r.m && x in r.m[k].dependents
      ensures (k in st.cells.m && x in st.cells.m[k].dependents) || (x == base && k in ids)
    {
      assert r.Get(k) == Some(r.m[k]);
    }
  }

  /** Unlinking removes base from the dependents of every referenced cell and adds no dependent anywhere. */
  lemma UnlinkDeps(st: State, ids: seq<CellId>, base: CellId)
    ensures var r := TouchAll(st, ids, RemoveDependent(base)).cells;
      && (forall k :: k in ids ==> k in r.m && base !in r.m[k].dependents)
      && (forall k, x :: k in r.m && x in r.m[k].dependents ==> k in st.cells.m && x in st.cells.m[k].dependents)
      && (forall k, x :: k in st.cells.m && x in st.cells.m[k].dependents && x != base ==> k in r.m && x in r.m[k].dependents)
  {
    TouchAllCells(st, ids, RemoveDependent(base));
    var r := TouchAll(st, ids, RemoveDependent(base)).cells;
    forall k | k in ids ensures k in r.m && base !in r.m[k].dependents {
      assert r.Get(k).Some?;
    }
    forall k, x | k in r.m && x in r.m[k].dependents
      ensures k in st.cells.m && x in st.cells.m[k].dependents
    {
      assert r.Get(k) == Some(r.m[k]);
    }
    forall k, x | k in st.cells.m && x in st.cells.m[k].dependents && x != base
      ensures k in r.m && x in r.m[k].dependents
    {
      assert r.Get(k).Some?;
    }
  }

  /** Storing a computed value is an evaluation step that changes that one value and nothing else. */
  lemma SetValueStep(st: State, id: CellId, v: real, U: set<CellId>)
    requires st.cells.Valid() && st.undos.Valid() && id in st.cells.m && Closed(st.cells, U)
    ensures var r := Touched(st, id, SetValue(v));
      && Evolves(st.cells, st.undos, r.cells, r.undos)
      && Closed(r.cells, U)
      && r.cells.m.Keys == st.cells.m.Keys
      && (forall k :: k in r.cells.m ==> r.cells.m[k].dependents == st.cells.m[k].dependents)
      && r.cells.m[id].value == v
      && (forall k :: k != id ==> ValueAt(r.cells, k) == ValueAt(st.cells, k))
  {
    TouchedCovered(st, id, SetValue(v));
    var r := Touched(st, id, SetValue(v));
    forall k
      ensures k in r.cells.m <==> k in st.cells.m
      ensures k in r.cells.m ==> r.cells.m[k].dependents == st.cells.m[k].dependents && r.cells.m[k].ast == st.cells.m[k].ast
      ensures k != id ==> ValueAt(r.cells, k) == ValueAt(st.cells, k)
    {
      TouchedAt(st, id, SetValue(v), k);
    }
  }

  /** `_updateCell` with a mutator that keeps the cell only changes what it logs. */
  lemma TouchedCovered(st: State, id: CellId, upd: Update)
    requires !upd.DeleteCell? && st.cells.Valid() && st.undos.Valid()
    ensures var r := Touched(st, id, upd);
      && Covered(st.cells, st.undos, r.cells, r.undos)
      && r.cells.Valid() && r.undos.Valid()
  {
    TouchedKeys(st, id, upd);
    forall k {
      TouchedAt(st, id, upd, k);
    }
  }

  /** Storing a new formula is logged, and changes that formula and nothing else. */
  lemma SetAstStep(st: State, id: CellId, a: Option<Ast>)
    requires st.cells.Valid() && st.undos.Valid()
    ensures var r := Touched(st, id, SetAst(a));
      && Covered(st.cells, st.undos, r.cells, r.undos)
      && r.cells.Valid() && r.undos.Valid()
      && id in r.cells.m && r.cells.m[id].ast == a
      && (forall k :: k != id ==> Current(r.cells, k).ast == Current(st.cells, k).ast)
      && (forall k :: ValueAt(r.cells, k) == ValueAt(st.cells, k))
      && (forall k, x :: k in r.cells.m && x in r.cells.m[k].dependents ==> k in st.cells.m && x in st.cells.m[k].dependents)
      && (forall k :: k in st.cells.m ==> k in r.cells.m && r.cells.m[k].dependents == st.cells.m[k].dependents)
  {
    TouchedCovered(st, id, SetAst(a));
    var r := Touched(st, id, SetAst(a));
    forall k
      ensures k in st.cells.m ==> k in r.cells.m
      ensures k != id ==> Current(r.cells, k) == Current(st.cells, k)
      ensures ValueAt(r.cells, k) == ValueAt(st.cells, k)
      ensures k in r.cells.m ==> k in st.cells.m || k == id
      ensures k in r.cells.m ==> r.cells.m[k].dependents == Current(st.cells, k).dependents
    {
      TouchedAt(st, id, SetAst(a), k);
    }
    TouchedAt(st, id, SetAst(a), id);
  }

  /** `_removeAsDependent` is logged, keeps every formula and value, and unlinks base from the references. */
  lemma UnlinkStep(st: State, ids: seq<CellId>, base: CellId)
    requires st.cells.Valid() && st.undos.Valid()
    ensures var r := TouchAll(st, ids, RemoveDependent(base));
      && Covered(st.cells, st.undos, r.cells, r.undos)
      && r.cells.Valid() && r.undos.Valid()
      && (forall k :: k in st.cells.m ==> k in r.cells.m)
      && (forall k :: Current(r.cells, k).ast == Current(st.cells, k).ast)
      && (forall k :: ValueAt(r.cells, k) == ValueAt(st.cells, k))
      && (forall k :: k in ids ==> k in r.cells.m && base !in r.cells.m[k].dependents)
      && (forall k, x :: k in r.cells.m && x in r.cells.m[k].dependents ==> k in st.cells.m && x in st.cells.m[k].dependents)
      && (forall k, x :: k in st.cells.m && x in st.cells.m[k].dependents && x != base ==> k in r.cells.m && x in r.cells.m[k].dependents)
  {
    TouchAllCovered(st, ids, RemoveDependent(base));
    TouchAllKeys(st, ids, RemoveDependent(base));
    KeepsValues(st, ids, RemoveDependent(base));
    UnlinkDeps(st, ids, base);
    TouchAllCells(st, ids, RemoveDependent(base));
    var r := TouchAll(st, ids, RemoveDependent(base));
    forall k | k in st.cells.m ensures k in r.cells.m {
      assert r.cells.Get(k).Some?;
    }
    forall k ensures Current(r.cells, k).ast == Current(st.cells, k).ast {
      assert r.cells.Get(k).Some? ==> Current(r.cells, k) == r.cells.Get(k).value;
    }
  }
}
