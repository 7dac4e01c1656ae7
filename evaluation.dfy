/**
 * What `_evalCell` promises about the object of updates it builds: each
 * reported value is the value now cached in its cell, every cell it does not
 * report keeps its value, every dependent recorded along the way is a
 * reported cell whose formula refers to the cell it was recorded in, and the
 * report is closed under dependents.  The lemmas here carry these facts
 * through one `Object.assign(vals, ...)` step of its loop.
 */
module Evaluation {
  import opened Wrappers
  import opened Ordered
  import opened Formula
  import opened Cells
  import opened Rollback
  import opened Updates

  /** The objects the public operations return: cell id to its new value, in insertion order. */
  type Values = Dict<CellId, real>

  /** Every reported value is the value cached in its cell. */
  ghost predicate Agrees(s: Store, vals: Values) {
    forall k :: k in vals.m ==> k in s.m && s.m[k].value == vals.m[k]
  }

  /** A cell that is not reported kept the value it had in s0. */
  ghost predicate OthersKeep(s0: Store, s: Store, vals: Values) {
    forall k :: k !in vals.m ==> ValueAt(s, k) == ValueAt(s0, k)
  }

  /**
   * A dependent recorded since s0 is a reported cell whose formula refers
   * to the cell it was recorded in.
   */
  ghost predicate NewDepsIn(s0: Store, s: Store, vals: Values) {
    forall k, x :: k in s.m && x in s.m[k].dependents && !(k in s0.m && x in s0.m[k].dependents) ==>
      x in vals.m && k in RefsOf(Current(s, x).ast)
  }

  /** The dependents of every reported cell other than `open` are reported. */
  ghost predicate ClosedBut(s: Store, vals: Values, open: CellId) {
    forall k, x :: k in vals.m && k != open && k in s.m && x in s.m[k].dependents ==> x in vals.m
  }

  /** The dependents of every reported cell are reported. */
  ghost predicate DepsClosed(s: Store, vals: Values) {
    forall k, x :: k in vals.m && k in s.m && x in s.m[k].dependents ==> x in vals.m
  }

  /** No reported cell is in the working set. */
  ghost predicate Outside(vals: Values, working: set<CellId>) {
    forall k :: k in vals.m ==> k !in working
  }

  /** The value cached in cell k is the value of its formula over the values cached in s. */
  ghost predicate Fresh(s: Store, k: CellId) {
    k in s.m && s.m[k].value == EvalValue(s, s.m[k].ast)
  }

  /** Every reported cell is fresh. */
  ghost predicate AllFresh(s: Store, vals: Values) {
    forall k :: k in vals.m ==> Fresh(s, k)
  }

  /** Every reported cell other than `open` is fresh. */
  ghost predicate FreshBut(s: Store, vals: Values, open: CellId) {
    forall k :: k in vals.m && k != open ==> Fresh(s, k)
  }

  /** id is stored and recorded as a dependent of every cell its formula refers to. */
  ghost predicate LinkedToRefs(s: Store, id: CellId) {
    id in s.m && forall r :: r in RefsOf(s.m[id].ast) ==> r in s.m && id in s.m[r].dependents
  }

  /** Every reported cell is linked to the cells its formula refers to. */
  ghost predicate AllLinked(s: Store, vals: Values) {
    forall k :: k in vals.m ==> LinkedToRefs(s, k)
  }

  /** No reported cell other than id has id among its dependents. */
  ghost predicate Unreached(s: Store, vals: Values, id: CellId) {
    forall k :: k in vals.m && k != id && k in s.m ==> id !in s.m[k].dependents
  }

  /**
   * The outcome of a successful `_evalCell(cell, working)` that started
   * from store s0 and left store s, reporting vals: id reports the value of
   * its formula over s0, and every reported cell (id included) now caches
   * the value of its formula over s and is linked to its references.
   */
  ghost predicate EvalOk(s0: Store, s: Store, id: CellId, working: set<CellId>, vals: Values) {
    && vals.Valid()
    && id in vals.m && vals.m[id] == EvalValue(s0, Current(s0, id).ast)
    && Agrees(s, vals)
    && OthersKeep(s0, s, vals)
    && NewDepsIn(s0, s, vals)
    && DepsClosed(s, vals)
    && Outside(vals, working)
    && id in s.m
    && (forall x :: x in s.m[id].dependents ==> x != id && x !in working)
    && AllFresh(s, vals)
    && AllLinked(s, vals)
  }

  /** Reported values agree with the store after one more `Object.assign`. */
  lemma AssignAgrees(s1: Store, s2: Store, vals: Values, r: Values)
    requires r.Valid() && Agrees(s1, vals) && Agrees(s2, r) && OthersKeep(s1, s2, r)
    requires forall k :: k in s1.m ==> k in s2.m
    ensures Agrees(s2, Assign(vals, r))
  {
    var v := Assign(vals, r);
    forall k | k in v.m ensures k in s2.m && s2.m[k].value == v.m[k] {
      assert v.Get(k).Some?;
      if k !in r.m {
        assert ValueAt(s2, k) == ValueAt(s1, k);
      }
    }
  }

  /** Unreported cells still have their starting values after one more `Object.assign`. */
  lemma AssignKeeps(s0: Store, s1: Store, s2: Store, vals: Values, r: Values)
    requires r.Valid() && OthersKeep(s0, s1, vals) && OthersKeep(s1, s2, r)
    ensures OthersKeep(s0, s2, Assign(vals, r))
  {
    var v := Assign(vals, r);
    forall k | k !in v.m ensures ValueAt(s2, k) == ValueAt(s0, k) {
      assert v.Get(k).None?;
    }
  }

  /** New dependents are still accounted for after one more `Object.assign`. */
  lemma AssignNewDeps(s0: Store, s1: Store, s2: Store, vals: Values, r: Values)
    requires r.Valid() && NewDepsIn(s0, s1, vals) && NewDepsIn(s1, s2, r)
    requires forall k :: Current(s2, k).ast == Current(s1, k).ast
    ensures NewDepsIn(s0, s2, Assign(vals, r))
  {
    var v := Assign(vals, r);
    forall k, x | k in s2.m && x in s2.m[k].dependents && !(k in s0.m && x in s0.m[k].dependents)
      ensures x in v.m && k in RefsOf(Current(s2, x).ast)
    {
      if k in s1.m && x in s1.m[k].dependents {
        assert x in vals.m;
        assert v.Get(x).Some?;
      } else {
        assert x in r.m;
        assert v.Get(x).Some?;
      }
    }
  }

  /** Closure under dependents survives one more `Object.assign`. */
  lemma AssignClosed(s1: Store, s2: Store, vals: Values, r: Values, open: CellId)
    requires r.Valid() && ClosedBut(s1, vals, open) && DepsClosed(s2, r)
    requires NewDepsIn(s1, s2, r)
    ensures ClosedBut(s2, Assign(vals, r), open)
  {
    var v := Assign(vals, r);
    forall k, x | k in v.m && k != open && k in s2.m && x in s2.m[k].dependents
      ensures x in v.m
    {
      assert v.Get(k).Some?;
      if k in r.m {
        assert x in r.m;
      } else if k in s1.m && x in s1.m[k].dependents {
        assert x in vals.m;
      } else {
        assert x in r.m;
      }
      assert v.Get(x).Some?;
    }
  }

  /** The working set stays out of the report. */
  lemma AssignOutside(vals: Values, r: Values, working: set<CellId>)
    requires r.Valid() && Outside(vals, working) && Outside(r, working)
    ensures Outside(Assign(vals, r), working)
  {
    var v := Assign(vals, r);
    forall k | k in v.m ensures k !in working {
      assert v.Get(k).Some?;
    }
  }

  /** Which cells `Object.assign(vals, r)` reports, and with which values. */
  lemma AssignHas(vals: Values, r: Values)
    requires r.Valid()
    ensures forall k :: k in Assign(vals, r).m <==> k in vals.m || k in r.m
    ensures forall k :: k in Assign(vals, r).m ==> Assign(vals, r).m[k] == if k in r.m then r.m[k] else vals.m[k]
  {
    var v := Assign(vals, r);
    forall k ensures k in v.m <==> k in vals.m || k in r.m {
      assert v.Get(k).Some? <==> k in v.m;
    }
    forall k | k in v.m ensures v.m[k] == if k in r.m then r.m[k] else vals.m[k] {
      assert v.Get(k) == Some(v.m[k]);
    }
  }

  /** What the report built so far promises, relative to the store s0 the evaluation of id started from. */
  ghost predicate Report(s0: Store, s: Store, id: CellId, working: set<CellId>, vals: Values) {
    && vals.Valid() && id in vals.m && vals.m[id] == EvalValue(s0, Current(s0, id).ast)
    && Agrees(s, vals) && OthersKeep(s0, s, vals) && NewDepsIn(s0, s, vals) && ClosedBut(s, vals, id)
    && Outside(vals, working)
    && FreshBut(s, vals, id) && AllLinked(s, vals) && Unreached(s, vals, id)
  }

  /** The first i dependents of id have been evaluated: they are reported and none is in the working set. */
  ghost predicate Visited(s: Store, id: CellId, working: set<CellId>, vals: Values, i: nat)
    requires id in s.m && i <= |s.m[id].dependents|
  {
    forall j :: 0 <= j < i ==> s.m[id].dependents[j] in vals.m && s.m[id].dependents[j] !in working + {id}
  }

  /**
   * The state of the loop of `_evalCell` over the dependents of id, after
   * i of them have been evaluated and merged into vals.
   */
  ghost predicate Looping(s0: Store, u0: UndoLog, s: Store, u: UndoLog, id: CellId, working: set<CellId>, vals: Values, i: nat) {
    && id in s.m && i <= |s.m[id].dependents|
    && Evolves(s0, u0, s, u)
    && Report(s0, s, id, working, vals)
    && Visited(s, id, working, vals, i)
  }

  /** A cell keeps its links when every dependent recorded for it stays recorded and its formula is unchanged. */
  lemma KeptLinked(s1: Store, s2: Store, k: CellId)
    requires LinkedToRefs(s1, k) && k in s2.m && s2.m[k].ast == s1.m[k].ast
    requires forall q :: q in s1.m && k in s1.m[q].dependents ==> q in s2.m && k in s2.m[q].dependents
    ensures LinkedToRefs(s2, k)
  {
  }

  /**
   * A fresh, linked cell that a later report r does not include stays
   * fresh: none of its references is in r (r would then include the cell,
   * a dependent of that reference), so none of their values changed.
   */
  lemma KeptFresh(s1: Store, s2: Store, r: Values, k: CellId)
    requires Fresh(s1, k) && LinkedToRefs(s2, k) && k !in r.m && s2.m[k].ast == s1.m[k].ast
    requires DepsClosed(s2, r) && OthersKeep(s1, s2, r)
    ensures Fresh(s2, k)
  {
    assert ValueAt(s2, k) == ValueAt(s1, k);
    if s1.m[k].ast.Some? {
      var a := s1.m[k].ast.value;
      forall q | q in RefList(a) ensures ValueAt(s1, q) == ValueAt(s2, q) {
        assert q in RefsOf(s2.m[k].ast);
      }
      ValueOfRefsAgree(s1, s2, a);
    }
  }

  /** Freshness and links of a merged report: r's cells from r's promise, the others kept. */
  lemma AssignFresh(s1: Store, s2: Store, vals: Values, r: Values, open: CellId)
    requires r.Valid() && FreshBut(s1, vals, open) && AllLinked(s1, vals)
    requires AllFresh(s2, r) && AllLinked(s2, r) && DepsClosed(s2, r) && OthersKeep(s1, s2, r)
    requires forall k :: k in vals.m && k !in r.m ==> k in s2.m && Current(s2, k).ast == Current(s1, k).ast
    requires forall k, q :: q in s1.m && k in s1.m[q].dependents && k in vals.m && k !in r.m ==> q in s2.m && k in s2.m[q].dependents
    ensures FreshBut(s2, Assign(vals, r), open) && AllLinked(s2, Assign(vals, r))
  {
    AssignHas(vals, r);
    forall k | k in Assign(vals, r).m ensures LinkedToRefs(s2, k) && (k != open ==> Fresh(s2, k)) {
      if k !in r.m {
        KeptLinked(s1, s2, k);
        if k != open {
          KeptFresh(s1, s2, r, k);
        }
      }
    }
  }

  /** No merged cell other than id comes to have id as a dependent: r leaves id out and is closed under dependents. */
  lemma AssignUnreached(s1: Store, s2: Store, vals: Values, r: Values, id: CellId)
    requires r.Valid() && Unreached(s1, vals, id) && id !in r.m && DepsClosed(s2, r) && NewDepsIn(s1, s2, r)
    ensures Unreached(s2, Assign(vals, r), id)
  {
    AssignHas(vals, r);
  }

  /** Merging a dependent's report keeps the report's promises. */
  lemma ReportStep(s0: Store, s1: Store, s2: Store, id: CellId, dep: CellId, working: set<CellId>, vals: Values, r: Values)
    requires Report(s0, s1, id, working, vals)
    requires forall k :: k in s1.m ==> k in s2.m && Extends(s1.m[k].dependents, s2.m[k].dependents)
    requires forall k :: Current(s2, k).ast == Current(s1, k).ast
    requires EvalOk(s1, s2, dep, working + {id}, r)
    ensures Report(s0, s2, id, working, Assign(vals, r))
  {
    AssignHas(vals, r);
    AssignAgrees(s1, s2, vals, r);
    AssignKeeps(s0, s1, s2, vals, r);
    AssignNewDeps(s0, s1, s2, vals, r);
    AssignClosed(s1, s2, vals, r, id);
    AssignOutside(vals, r, working);
    forall k, q | q in s1.m && k in s1.m[q].dependents ensures q in s2.m && k in s2.m[q].dependents {
      ExtendsHas(s1.m[q].dependents, s2.m[q].dependents, k);
    }
    AssignFresh(s1, s2, vals, r, id);
    AssignUnreached(s1, s2, vals, r, id);
  }

  /** Merging the report of dependent number i extends the visited prefix by one. */
  lemma VisitedStep(s1: Store, s2: Store, id: CellId, working: set<CellId>, vals: Values, r: Values, i: nat)
    requires id in s1.m && id in s2.m && i < |s1.m[id].dependents|
    requires Extends(s1.m[id].dependents, s2.m[id].dependents)
    requires Visited(s1, id, working, vals, i)
    requires r.Valid() && s1.m[id].dependents[i] in r.m && s1.m[id].dependents[i] !in working + {id}
    ensures Visited(s2, id, working, Assign(vals, r), i + 1)
  {
    var v := Assign(vals, r);
    var d1 := s1.m[id].dependents;
    AssignHas(vals, r);
    forall j | 0 <= j < i + 1 ensures d1[j] in v.m.Keys && d1[j] !in working + {id} {
      if j < i {
        assert d1[j] in vals.m;
      }
    }
    DepsPrefix(d1, s2.m[id].dependents, i + 1, v.m.Keys, working + {id});
  }

  /** `_evalAst(id, ast)` on the formula of a stored cell is an evaluation step that only links id to the references. */
  lemma LinkPhase(s0: Store, u0: UndoLog, id: CellId, U: set<CellId>)
    requires s0.Valid() && u0.Valid() && id in s0.m && Closed(s0, U) && id in U
    ensures var refs := RefsOf(s0.m[id].ast);
      var s1 := TouchAll(State(s0, u0), refs, AddDependent(id));
      && s1.cells.Valid() && s1.undos.Valid() && Closed(s1.cells, U)
      && Evolves(s0, u0, s1.cells, s1.undos)
      && (forall k :: ValueAt(s1.cells, k) == ValueAt(s0, k))
      && (forall k, x :: k in s1.cells.m && x in s1.cells.m[k].dependents && !(k in s0.m && x in s0.m[k].dependents) ==>
            x == id && k in refs)
      && (forall r :: r in refs ==> r in s1.cells.m && id in s1.cells.m[r].dependents)
  {
    var st0 := State(s0, u0);
    var refs := RefsOf(s0.m[id].ast);
    TouchAllKeys(st0, refs, AddDependent(id));
    TouchAllClosed(st0, refs, AddDependent(id), U);
    LinkEvolves(st0, refs, id);
    LinkDeps(st0, refs, id);
    LinkKeepsValues(st0, refs, id);
  }

  /** The report {id: v} right after the value of id was stored. */
  lemma StartReport(s0: Store, s: Store, id: CellId, working: set<CellId>, v: real)
    requires id in s0.m && id in s.m && id !in working
    requires v == EvalValue(s0, s0.m[id].ast) && s.m[id].value == v
    requires forall k :: k != id ==> ValueAt(s, k) == ValueAt(s0, k)
    requires forall k :: Current(s, k).ast == Current(s0, k).ast
    requires forall k, x :: k in s.m && x in s.m[k].dependents && !(k in s0.m && x in s0.m[k].dependents) ==>
               x == id && k in RefsOf(s0.m[id].ast)
    requires LinkedToRefs(s, id)
    ensures Report(s0, s, id, working, EmptyDict().Put(id, v))
  {
    var vals: Values := EmptyDict().Put(id, v);
    assert forall k :: k in vals.m <==> k == id by {
      forall k ensures k in vals.m <==> k == id {
        assert vals.Get(k).Some? <==> k in vals.m;
      }
    }
    assert vals.m[id] == v by {
      assert vals.Get(id) == Some(vals.m[id]);
    }
    assert Current(s, id).ast == Current(s0, id).ast;
  }

  /**
   * Before the loop: the formula of id has been evaluated against s0
   * (linking id to its references) and the value stored; the report holds
   * id alone.
   */
  lemma LoopStart(s0: Store, u0: UndoLog, id: CellId, working: set<CellId>, v: real, U: set<CellId>)
    requires s0.Valid() && u0.Valid() && id in s0.m && Closed(s0, U) && id in U && id !in working
    requires v == EvalValue(s0, s0.m[id].ast)
    ensures var st1 := TouchAll(State(s0, u0), RefsOf(s0.m[id].ast), AddDependent(id));
      var st2 := Touched(st1, id, SetValue(v));
      && Closed(st2.cells, U)
      && Looping(s0, u0, st2.cells, st2.undos, id, working, EmptyDict().Put(id, v), 0)
  {
    var refs := RefsOf(s0.m[id].ast);
    var st1 := TouchAll(State(s0, u0), refs, AddDependent(id));
    var st2 := Touched(st1, id, SetValue(v));
    LinkPhase(s0, u0, id, U);
    SetValueStep(st1, id, v, U);
    EvolvesTrans(s0, u0, st1.cells, st1.undos, st2.cells, st2.undos);
    assert st2.cells.m[id].ast == s0.m[id].ast by {
      assert Current(st2.cells, id).ast == Current(s0, id).ast;
    }
    assert LinkedToRefs(st2.cells, id) by {
      forall q | q in RefsOf(st2.cells.m[id].ast) ensures q in st2.cells.m && id in st2.cells.m[q].dependents {
        assert q in refs;
      }
    }
    StartReport(s0, st2.cells, id, working, v);
  }

  /** One turn of the loop: the dependent's report is merged in. */
  lemma LoopStep(s0: Store, u0: UndoLog, s1: Store, u1: UndoLog, s2: Store, u2: UndoLog,
                 id: CellId, working: set<CellId>, vals: Values, r: Values, i: nat)
    requires Looping(s0, u0, s1, u1, id, working, vals, i) && i < |s1.m[id].dependents|
    requires s1.m[id].dependents[i] != id && s1.m[id].dependents[i] !in working
    requires Evolves(s1, u1, s2, u2)
    requires EvalOk(s1, s2, s1.m[id].dependents[i], working + {id}, r)
    ensures Looping(s0, u0, s2, u2, id, working, Assign(vals, r), i + 1)
  {
    EvolvesTrans(s0, u0, s1, u1, s2, u2);
    ReportStep(s0, s1, s2, id, s1.m[id].dependents[i], working, vals, r);
    VisitedStep(s1, s2, id, working, vals, r, i);
  }

  /** A property of the first n dependents survives appending to the list. */
  lemma DepsPrefix(d1: seq<CellId>, d2: seq<CellId>, n: nat, good: set<CellId>, bad: set<CellId>)
    requires Extends(d1, d2) && n <= |d1|
    requires forall j :: 0 <= j < n ==> d1[j] in good && d1[j] !in bad
    ensures forall j :: 0 <= j < n ==> d2[j] in good && d2[j] !in bad
  {
    forall j | 0 <= j < n ensures d2[j] == d1[j] {
      assert d2[j] == d2[..|d1|][j];
    }
  }

  /** When the loop has visited every dependent, the evaluation succeeded. */
  lemma LoopDone(s0: Store, u0: UndoLog, s: Store, u: UndoLog, id: CellId, working: set<CellId>, vals: Values, i: nat)
    requires Looping(s0, u0, s, u, id, working, vals, i) && i == |s.m[id].dependents|
    ensures EvalOk(s0, s, id, working, vals)
  {
    forall k, x | k in vals.m && k in s.m && x in s.m[k].dependents ensures x in vals.m {
      if k == id {
        var j :| 0 <= j < i && s.m[id].dependents[j] == x;
        assert x in vals.m;
      }
    }
    forall x | x in s.m[id].dependents ensures x != id && x !in working {
      var j :| 0 <= j < i && s.m[id].dependents[j] == x;
      assert x !in working + {id};
    }
    IdFresh(s0, s, id, vals);
  }

  /**
   * At the end of the loop id is fresh too: none of its references is
   * reported (it would have id among its dependents), so they all kept
   * the values its reported value was computed from.
   */
  lemma IdFresh(s0: Store, s: Store, id: CellId, vals: Values)
    requires id in vals.m && vals.m[id] == EvalValue(s0, Current(s0, id).ast) && Agrees(s, vals)
    requires OthersKeep(s0, s, vals) && AllLinked(s, vals) && Unreached(s, vals, id)
    requires id !in s.m[id].dependents && Current(s, id).ast == Current(s0, id).ast
    ensures Fresh(s, id)
  {
    if s.m[id].ast.Some? {
      var a := s.m[id].ast.value;
      forall q | q in RefList(a) ensures ValueAt(s0, q) == ValueAt(s, q) {
        assert q in RefsOf(s.m[id].ast);
      }
      ValueOfRefsAgree(s0, s, a);
    }
  }

  /** Every dependent recorded in s0, other than id, is still recorded in s. */
  ghost predicate LinksKept(s0: Store, s: Store, id: CellId) {
    forall q, k :: q in s0.m && k in s0.m[q].dependents && k != id ==> q in s.m && k in s.m[q].dependents
  }

  /**
   * The outcome of a successful `eval` of formula ast into cell id, from
   * store s0 to store s, reporting vals: the formula is stored and no
   * other formula changes; the cell's value is the formula's value over the
   * values cached at the start; every reported value is stored, every other
   * value is unchanged, and every dependent of a reported cell is reported;
   * every newly recorded dependent is a reported cell whose formula refers
   * to the cell it is recorded in;
   * every reported cell now caches the value of its formula over the new
   * values and is linked to its references; the cell is recorded as a
   * dependent of each cell the new formula refers to, is not its own
   * dependent, and is no longer a dependent of the cells only the old
   * formula (with references oldRefs) referred to; every other recorded
   * dependent stays recorded.
   */
  ghost predicate Evaluated(s0: Store, s: Store, id: CellId, ast: Ast, oldRefs: seq<CellId>, vals: Values) {
    && id in s.m && s.m[id].ast == Some(ast)
    && (forall k :: k != id ==> Current(s, k).ast == Current(s0, k).ast)
    && vals.Valid() && id in vals.m && vals.m[id] == ValueOf(s0, ast)
    && Agrees(s, vals) && OthersKeep(s0, s, vals) && DepsClosed(s, vals) && NewDepsIn(s0, s, vals)
    && AllFresh(s, vals) && AllLinked(s, vals)
    && (forall x :: x in s.m[id].dependents ==> x != id)
    && (forall r :: r in RefList(ast) ==> r in s.m && id in s.m[r].dependents)
    && (forall r :: r in oldRefs && r !in RefList(ast) && r in s.m ==> id !in s.m[r].dependents)
    && LinksKept(s0, s, id)
  }

  /**
   * A report merged from several evaluations that started from store s0:
   * every reported value is cached, every other cell kept its value, the
   * dependents of every reported cell are reported, and every reported cell
   * is fresh and linked to its references.
   */
  ghost predicate Merged(s0: Store, s: Store, vals: Values) {
    vals.Valid() && Agrees(s, vals) && OthersKeep(s0, s, vals) && DepsClosed(s, vals) && AllFresh(s, vals) && AllLinked(s, vals)
  }

  /**
   * One turn of `delete`'s loop: after `query(d)` (from s to s2, which
   * reads the same) and a successful `eval` of cell id (from s2 to s3), the
   * merged report keeps its promises and holds id and every cell it held.
   */
  lemma MergeStep(s0: Store, s: Store, s2: Store, s3: Store, id: CellId, ast: Ast, oldRefs: seq<CellId>, vals: Values, r: Values)
    requires Merged(s0, s, vals)
    requires forall k :: Current(s2, k) == Current(s, k)
    requires forall k :: k in s.m ==> k in s2.m
    requires Evaluated(s2, s3, id, ast, oldRefs, r)
    requires forall k :: k in s2.m ==> k in s3.m
    ensures Merged(s0, s3, Assign(vals, r))
    ensures id in Assign(vals, r).m && forall k :: k in vals.m ==> k in Assign(vals, r).m
  {
    assert OthersKeep(s0, s2, vals) by {
      forall k ensures ValueAt(s2, k) == ValueAt(s, k) {
        assert Current(s2, k) == Current(s, k);
      }
    }
    SameCellsFresh(s, s2, vals);
    assert Agrees(s2, vals) by {
      forall k | k in vals.m ensures k in s2.m && s2.m[k].value == vals.m[k] {
        assert Current(s2, k) == Current(s, k);
      }
    }
    assert OthersKeep(s2, s3, r) && Agrees(s3, r) && r.Valid();
    AssignHas(vals, r);
    AssignAgrees(s2, s3, vals, r);
    AssignKeeps(s0, s2, s3, vals, r);
    MergeClosed(s, s2, s3, vals, r);
    EvalMerge(s2, s3, id, vals, r);
  }

  /**
   * The merged report of `delete` stays closed under dependents: a cell of
   * the new report has its dependents in it, and a dependent of an earlier
   * cell was recorded before (and reported then) or is new (and reported by
   * the evaluation that recorded it).
   */
  lemma MergeClosed(s: Store, s2: Store, s3: Store, vals: Values, r: Values)
    requires vals.Valid() && Agrees(s, vals) && DepsClosed(s, vals)
    requires forall k :: Current(s2, k) == Current(s, k)
    requires r.Valid() && DepsClosed(s3, r) && NewDepsIn(s2, s3, r)
    ensures DepsClosed(s3, Assign(vals, r))
  {
    AssignHas(vals, r);
    forall k, x | k in Assign(vals, r).m && k in s3.m && x in s3.m[k].dependents ensures x in Assign(vals, r).m {
      if k !in r.m {
        if k in s2.m && x in s2.m[k].dependents {
          assert Current(s2, k) == Current(s, k);
          assert x in vals.m;
        } else {
          assert x in r.m;
        }
      }
    }
  }

  /**
   * Merging the report of a successful `eval` into the reports of earlier
   * ones (as `delete` does) keeps every merged cell fresh and linked.
   */
  lemma EvalMerge(s1: Store, s2: Store, id: CellId, vals: Values, r: Values)
    requires AllFresh(s1, vals) && AllLinked(s1, vals)
    requires r.Valid() && id in r.m && AllFresh(s2, r) && AllLinked(s2, r) && DepsClosed(s2, r) && OthersKeep(s1, s2, r)
    requires forall k :: k != id ==> Current(s2, k).ast == Current(s1, k).ast
    requires LinksKept(s1, s2, id)
    requires forall k :: k in s1.m ==> k in s2.m
    ensures AllFresh(s2, Assign(vals, r)) && AllLinked(s2, Assign(vals, r))
  {
    AssignHas(vals, r);
    AssignFresh(s1, s2, vals, r, id);
  }

  /** A store that reads the same for every id and keeps every key keeps every report fresh and linked. */
  lemma SameCellsFresh(s1: Store, s2: Store, vals: Values)
    requires forall k :: Current(s2, k) == Current(s1, k)
    requires forall k :: k in s1.m ==> k in s2.m
    requires AllFresh(s1, vals) && AllLinked(s1, vals)
    ensures AllFresh(s2, vals) && AllLinked(s2, vals)
  {
    forall k | k in vals.m ensures Fresh(s2, k) && LinkedToRefs(s2, k) {
      assert Current(s2, k) == Current(s1, k);
      if s1.m[k].ast.Some? {
        ValueOfAgree(s1, s2, s1.m[k].ast.value);
      }
      forall q | q in RefsOf(s2.m[k].ast) ensures q in s2.m && k in s2.m[q].dependents {
        assert Current(s2, q) == Current(s1, q);
      }
    }
  }

  /**
   * The state `eval` reaches before `_evalCell`: the log reset, the new
   * formula stored in cell id, and id unlinked from the references of the
   * old formula.
   */
  function Prepared(s0: Store, id: CellId, ast: Option<Ast>, oldAst: Option<Ast>): State {
    var st1 := Touched(State(s0, EmptyDict()), id, SetAst(ast));
    if oldAst.Some? then TouchAll(st1, RefList(oldAst.value), RemoveDependent(id)) else st1
  }

  /** The preparation of `eval` keeps the store and the log well formed. */
  lemma PreparedSound(s0: Store, id: CellId, ast: Option<Ast>, oldAst: Option<Ast>)
    requires WellFormed(s0)
    ensures Sound(Prepared(s0, id, ast, oldAst))
  {
    var st0 := State(s0, EmptyDict());
    TouchedSound(st0, id, SetAst(ast));
    if oldAst.Some? {
      TouchAllSound(Touched(st0, id, SetAst(ast)), RefList(oldAst.value), RemoveDependent(id));
    }
  }

  /** Every change the preparation of `eval` makes is in the log. */
  lemma PreparedCovered(s0: Store, id: CellId, ast: Option<Ast>, oldAst: Option<Ast>)
    requires s0.Valid()
    ensures var st := Prepared(s0, id, ast, oldAst); Covered(s0, EmptyDict(), st.cells, st.undos)
  {
    var st0 := State(s0, EmptyDict());
    var st1 := Touched(st0, id, SetAst(ast));
    TouchedCovered(st0, id, SetAst(ast));
    if oldAst.Some? {
      TouchAllCovered(st1, RefList(oldAst.value), RemoveDependent(id));
      TouchAllKeys(st1, RefList(oldAst.value), RemoveDependent(id));
      var st2 := TouchAll(st1, RefList(oldAst.value), RemoveDependent(id));
      CoveredTrans(s0, EmptyDict(), st1.cells, st1.undos, st2.cells, st2.undos);
    }
  }

  /**
   * After the preparation of `eval`: cell id holds the new formula, no
   * other formula and no value changed, and id is no longer a dependent of
   * the cells the old formula referred to.
   */
  lemma PreparedCells(s0: Store, id: CellId, ast: Option<Ast>, oldAst: Option<Ast>)
    requires s0.Valid()
    ensures var s := Prepared(s0, id, ast, oldAst).cells;
      && id in s.m && s.m[id].ast == ast
      && (forall k :: k != id ==> Current(s, k).ast == Current(s0, k).ast)
      && (forall k :: ValueAt(s, k) == ValueAt(s0, k))
      && (forall r :: r in RefsOf(oldAst) ==> r in s.m && id !in s.m[r].dependents)
      && LinksKept(s0, s, id)
      && (forall k, x :: k in s.m && x in s.m[k].dependents ==> k in s0.m && x in s0.m[k].dependents)
  {
    var st0 := State(s0, EmptyDict());
    var st1 := Touched(st0, id, SetAst(ast));
    SetAstStep(st0, id, ast);
    if oldAst.Some? {
      UnlinkStep(st1, RefList(oldAst.value), id);
      var s := TouchAll(st1, RefList(oldAst.value), RemoveDependent(id)).cells;
      assert Current(s, id).ast == Current(st1.cells, id).ast;
    }
  }

  /** From the store after the formula was set and unlinked (s1) and a successful `_evalCell` (s2) to `eval`'s outcome. */
  lemma EvalFinish(s0: Store, s1: Store, u1: UndoLog, s2: Store, u2: UndoLog, id: CellId, ast: Ast, oldRefs: seq<CellId>, vals: Values)
    requires id in s1.m && s1.m[id].ast == Some(ast)
    requires forall k :: k != id ==> Current(s1, k).ast == Current(s0, k).ast
    requires forall k :: ValueAt(s1, k) == ValueAt(s0, k)
    requires forall r :: r in oldRefs ==> r in s1.m && id !in s1.m[r].dependents
    requires LinksKept(s0, s1, id)
    requires forall k, x :: k in s1.m && x in s1.m[k].dependents ==> k in s0.m && x in s0.m[k].dependents
    requires Evolves(s1, u1, s2, u2) && EvalOk(s1, s2, id, {}, vals)
    ensures Evaluated(s0, s2, id, ast, oldRefs, vals)
  {
    assert Current(s2, id).ast == Current(s1, id).ast;
    forall q, k | q in s0.m && k in s0.m[q].dependents && k != id ensures q in s2.m && k in s2.m[q].dependents {
      ExtendsHas(s1.m[q].dependents, s2.m[q].dependents, k);
    }
    ValueOfAgree(s1, s0, ast);
    forall k | k != id ensures Current(s2, k).ast == Current(s0, k).ast {
      assert Current(s2, k).ast == Current(s1, k).ast;
    }
    NewDepsBefore(s0, s1, s2, vals);
  }

  /** Dependents new since s1 are new since s0 too when nothing was recorded between s0 and s1. */
  lemma NewDepsBefore(s0: Store, s1: Store, s2: Store, vals: Values)
    requires forall k, x :: k in s1.m && x in s1.m[k].dependents ==> k in s0.m && x in s0.m[k].dependents
    requires NewDepsIn(s1, s2, vals)
    ensures NewDepsIn(s0, s2, vals)
  {
  }
}
