/**
 * `MemSpreadsheet`: the in-memory spreadsheet engine.  Its two
 * dictionaries are fields updated in place; the formula parser,
 * `ast.toString(base)` and `cellRefToCellId` are supplied as functions.
 */
module MemSheet {
  import opened Wrappers
  import opened Ordered
  import opened Formula
  import opened Cells
  import opened Rollback
  import opened Updates
  import opened Evaluation
  import opened Graph
  import opened Export

  /**
   * What the engine throws: the `SYNTAX` and `CIRCULAR_REF` application
   * errors, and the JavaScript TypeError raised when it reads a property
   * of `undefined`.
   */
  datatype Error = Syntax | CircularRef(cell: CellId) | TypeError

  /** `id.replace(/\$/g, '')` */
  function StripDollar(id: string): (r: string)
    ensures '$' !in r
    ensures forall c :: c in r <==> c in id && c != '$'
  {
    Without(id, {'$'})
  }

  /** The store after `query(cellId)`: an empty cell is inserted when there is none. */
  function Queried(s: Store, cellId: string): (r: Store)
    ensures StripDollar(cellId) in r.m
    ensures forall k :: Current(r, k) == Current(s, k)
    ensures s.Valid() ==> r.Valid() && r.keys == Add(s.keys, StripDollar(cellId))
    ensures WellFormed(s) ==> WellFormed(r)
  {
    var id := StripDollar(cellId);
    AddEmptyWellFormed(s, id);
    if id in s.m then s else s.Put(id, NewCell(id))
  }

  lemma AddEmptyWellFormed(s: Store, id: CellId)
    ensures WellFormed(s) ==> WellFormed(s.Put(id, NewCell(id)))
  {
    if WellFormed(s) {
      PutWellFormed(s, id, NewCell(id));
    }
  }

  /** Before `_evalCell` in `eval`: the prepared store is closed under some set of ids holding the cell. */
  lemma EvalReady(s0: Store, id: CellId, ast: Ast, oldAst: Option<Ast>) returns (U: set<CellId>)
    requires WellFormed(s0)
    ensures var s := Prepared(s0, id, Some(ast), oldAst).cells; id in s.m && Closed(s, U) && id in U
  {
    PreparedCells(s0, id, Some(ast), oldAst);
    U := ClosingSet(Prepared(s0, id, Some(ast), oldAst).cells);
  }

  /**
   * After `_evalCell` in `eval`: the log covers every change since the
   * start, so `undo()` gives back the starting store; on success the
   * outcome is the one Evaluated describes.
   */
  lemma EvalOutcome(s0: Store, id: CellId, ast: Ast, oldAst: Option<Ast>, s: Store, u: UndoLog, res: Result<Values, Error>)
    requires WellFormed(s0) && s.Valid() && u.Valid()
    requires var p := Prepared(s0, id, Some(ast), oldAst);
      && Evolves(p.cells, p.undos, s, u)
      && (res.Ok? ==> EvalOk(p.cells, s, id, {}, res.value))
    ensures Replay(s, u, u.keys) == s0
    ensures forall k :: k in s0.m ==> k in s.m
    ensures res.Ok? ==> Evaluated(s0, s, id, ast, RefsOf(oldAst), res.value)
  {
    var p := Prepared(s0, id, Some(ast), oldAst);
    PreparedSound(s0, id, Some(ast), oldAst);
    PreparedCovered(s0, id, Some(ast), oldAst);
    CoveredTrans(s0, EmptyDict(), p.cells, p.undos, s, u);
    UndoRestores(s0, s, u);
    KeysKept(s0, s);
    if res.Ok? {
      PreparedCells(s0, id, Some(ast), oldAst);
      EvalFinish(s0, p.cells, p.undos, s, u, id, ast, RefsOf(oldAst), res.value);
    }
  }

  /** No cell outside T has a formula in s other than the one it had in s0. */
  ghost predicate FormulasKept(s0: Store, s: Store, T: set<CellId>) {
    forall k :: k !in T ==> Current(s, k).ast == Current(s0, k).ast
  }

  /** The cells `eval(d, ...)` stores a formula into, for each d of ids. */
  function Targets(toId: string -> CellId, ids: seq<string>): set<CellId> {
    set d | d in ids :: toId(d)
  }

  lemma FormulasKeptTrans(s0: Store, s1: Store, s2: Store, T1: set<CellId>, T2: set<CellId>)
    requires FormulasKept(s0, s1, T1) && FormulasKept(s1, s2, T2)
    ensures FormulasKept(s0, s2, T1 + T2)
  {
  }

  /** The targets of a prefix grow by one id per element and stay among the targets of the whole. */
  lemma TargetsStep(toId: string -> CellId, ids: seq<string>, i: nat)
    requires i < |ids|
    ensures Targets(toId, ids[..i + 1]) == Targets(toId, ids[..i]) + {toId(ids[i])}
    ensures Targets(toId, ids[..i + 1]) <= Targets(toId, ids)
  {
    assert ids[..i + 1] == ids[..i] + [ids[i]];
    forall k | k in Targets(toId, ids[..i + 1]) ensures k in Targets(toId, ids) {
      var d :| d in ids[..i + 1] && toId(d) == k;
    }
  }

  /**
   * The state of `delete`'s loop after its first i dependents were
   * re-evaluated, starting from store s1: the merged report keeps its
   * promises and holds each of them, and only their formulas changed.
   * The store the log undoes to, undone, has only the formulas of the
   * dependents before the last one changed: each `eval` resets the log.
   */
  ghost predicate DeleteLoop(toId: string -> CellId, dependents: seq<string>, i: nat, s1: Store, s: Store, updates: Values,
                             undone: Store) {
    && i <= |dependents|
    && Merged(s1, s, updates)
    && (forall j :: 0 <= j < i ==> toId(dependents[j]) in updates.m)
    && FormulasKept(s1, s, Targets(toId, dependents[..i]))
    && (i > 0 ==> FormulasKept(s1, undone, Targets(toId, dependents[..i - 1])))
  }

  /** A query keeps every formula, so a store that queried s2 keeps what s2 kept. */
  lemma QueriedKept(s1: Store, s2: Store, q: Store, d: string, T: set<CellId>)
    requires FormulasKept(s1, s2, T) && q == Queried(s2, d)
    ensures FormulasKept(s1, q, T)
  {
  }

  /** One successful turn of `delete`'s loop (from s2 to s3, reporting r) extends its state by one dependent. */
  lemma DeleteLoopStep(toId: string -> CellId, dependents: seq<string>, i: nat, s1: Store, s2: Store, s3: Store,
                       updates: Values, r: Values, u2: Store, u3: Store)
    requires DeleteLoop(toId, dependents, i, s1, s2, updates, u2) && i < |dependents|
    requires Merged(s1, s3, r) && toId(dependents[i]) in r.m && forall k :: k in updates.m ==> k in r.m
    requires FormulasKept(s2, s3, {toId(dependents[i])}) && u3 == Queried(s2, dependents[i])
    ensures DeleteLoop(toId, dependents, i + 1, s1, s3, r, u3)
  {
    TargetsStep(toId, dependents, i);
    FormulasKeptTrans(s1, s2, s3, Targets(toId, dependents[..i]), {toId(dependents[i])});
    QueriedKept(s1, s2, u3, dependents[i], Targets(toId, dependents[..i]));
  }

  /**
   * What the evaluation of dependent d of id (from s1 to s2) tells about
   * the evaluation of id, which started from s0: an acyclic id has an
   * acyclic d, and a circular reference or a missing cell met below d is
   * met below id.
   */
  lemma DependentOutcome(s0: Store, u0: UndoLog, s1: Store, u1: UndoLog, s2: Store, u2: UndoLog,
                         id: CellId, d: CellId, working: set<CellId>, r: Result<Values, Error>)
    requires Evolves(s0, u0, s1, u1) && Evolves(s1, u1, s2, u2) && Edge(s1, id, d)
    requires Acyclic(s1, d, working + {id}) ==> r.Ok?
    requires r.Err? && r.error.CircularRef? ==> CircularAt(s1, d, working + {id}, r.error.cell)
    requires r == Err(TypeError) ==> ReachesMissing(s1, d)
    ensures Evolves(s0, u0, s2, u2)
    ensures Acyclic(s0, id, working) ==> r.Ok?
    ensures r.Err? && r.error.CircularRef? ==> CircularAt(s0, id, working, r.error.cell)
    ensures r == Err(TypeError) ==> ReachesMissing(s0, id)
  {
    EvolvesTrans(s0, u0, s1, u1, s2, u2);
    if Acyclic(s0, id, working) {
      AcyclicStep(s0, u0, s1, u1, id, d, working);
    }
    if r.Err? && r.error.CircularRef? {
      CircularBelow(s0, u0, s1, u1, id, d, working, r.error.cell);
    }
    if r == Err(TypeError) {
      MissingBelow(s0, u0, s1, u1, id, d);
    }
  }

  /** A store whose key order begins with the keys of s0 still holds every cell id of s0. */
  lemma KeysKept(s0: Store, s: Store)
    requires s0.Valid() && s.Valid()
    requires |s0.keys| <= |s.keys| && s.keys[..|s0.keys|] == s0.keys
    ensures forall k :: k in s0.m ==> k in s.m
  {
    forall k | k in s0.m ensures k in s.m {
      assert k in s.keys[..|s0.keys|];
    }
  }

  /**
   * Undoing a `delete` of a cell without dependents, whose undo log u
   * holds the one record the deletion left, puts the cell back, but last
   * in the key order of `_cells`.
   */
  lemma DeleteUndone(s: Store, k: CellId, u: UndoLog)
    requires s.Valid() && k in s.m
    requires u.keys == [k] && k in u.m && u.m[k] == Some(s.m[k])
    ensures var r := Replay(s.Remove(k), u, u.keys);
      && r.m == s.m
      && r.keys == Without(s.keys, {k}) + [k]
  {
    var c := s.m[k];
    var s1 := s.Remove(k);
    ReplaySingle(s1, u, u.keys, k);
    var r := s1.Put(k, c);
    assert Restore(s1, k, u.m[k]) == r;
    assert r.m == (s.m - {k})[k := c];
    PutBack(s.m, k);
    assert k !in Without(s.keys, {k});
  }

  lemma PutBack(m: map<CellId, CellInfo>, k: CellId)
    requires k in m
    ensures (m - {k})[k := m[k]] == m
  {
  }

  /** One turn of a loop over the kids of a formula that updates every cell each kid references. */
  lemma TouchKidsStep(st0: State, kids: seq<Ast>, i: nat, upd: Update)
    requires i < |kids|
    ensures TouchAll(TouchAll(st0, RefListKids(kids[..i]), upd), RefList(kids[i]), upd)
         == TouchAll(st0, RefListKids(kids[..i + 1]), upd)
  {
    assert kids[..i + 1][..i] == kids[..i] && kids[..i + 1][i] == kids[i];
    TouchAllAppend(st0, RefListKids(kids[..i]), RefList(kids[i]), upd);
  }

  /** One turn of `ast.kids.map(...)`: kid i reads the values cached at the start, and its links extend those of the kids before it. */
  lemma KidsStep(st0: State, kids: seq<Ast>, i: nat, base: CellId)
    requires i < |kids|
    ensures var st := TouchAll(st0, RefListKids(kids[..i]), AddDependent(base));
      && ValueOf(st.cells, kids[i]) == ValueOf(st0.cells, kids[i])
      && TouchAll(st, RefList(kids[i]), AddDependent(base)) == TouchAll(st0, RefListKids(kids[..i + 1]), AddDependent(base))
      && ValuesOf(st0.cells, kids[..i + 1]) == ValuesOf(st0.cells, kids[..i]) + [ValueOf(st0.cells, kids[i])]
  {
    var before := RefListKids(kids[..i]);
    LinkKeepsValues(st0, before, base);
    ValueOfAgree(TouchAll(st0, before, AddDependent(base)).cells, st0.cells, kids[i]);
    TouchAllAppend(st0, before, RefList(kids[i]), AddDependent(base));
    assert kids[..i + 1][..i] == kids[..i];
  }

  /** The store after `query` on each of ids in turn. */
  function QueriedAll(s: Store, ids: seq<string>): (r: Store)
    ensures WellFormed(s) ==> WellFormed(r)
    decreases |ids|
  {
    if ids == [] then s else Queried(QueriedAll(s, ids[..|ids| - 1]), ids[|ids| - 1])
  }

  /** Queries change no cell's contents: only missing cells are filled in, empty. */
  lemma {:induction false} QueriedAllCurrent(s: Store, ids: seq<string>, k: CellId)
    ensures Current(QueriedAll(s, ids), k) == Current(s, k)
    decreases |ids|
  {
    if ids != [] {
      QueriedAllCurrent(s, ids[..|ids| - 1], k);
    }
  }

  lemma {:induction false} QueriedAllAppend(s: Store, a: seq<string>, b: seq<string>)
    ensures QueriedAll(s, a + b) == QueriedAll(QueriedAll(s, a), b)
    decreases |b|
  {
    if b == [] {
      assert a + b == a;
    } else {
      assert (a + b)[..|a + b| - 1] == a + b[..|b| - 1];
      QueriedAllAppend(s, a, b[..|b| - 1]);
    }
  }

  /** d holds some of the entries of pre, unchanged. */
  ghost predicate SubDict(d: Prereqs, pre: map<CellId, seq<CellId>>) {
    d.Valid() && forall k :: k in d.m ==> k in pre && d.m[k] == pre[k]
  }

  lemma QueriedAllSnoc(s: Store, ids: seq<string>, id: string)
    ensures QueriedAll(s, ids + [id]) == Queried(QueriedAll(s, ids), id)
  {
    assert (ids + [id])[..|ids|] == ids;
  }

  /** The `[cellId, formula]` pair `dump` lists for id, read through `query`. */
  function DumpEntry(render: (Ast, CellId) -> string, s: Store, id: CellId): (CellId, string) {
    (id, FormulaText(render, Current(s, StripDollar(id))))
  }

  /** The pairs `dump` lists for ids, in their order. */
  function DumpEntries(render: (Ast, CellId) -> string, s: Store, ids: seq<CellId>): (r: seq<(CellId, string)>)
    ensures |r| == |ids|
    decreases |ids|
  {
    if ids == [] then [] else [DumpEntry(render, s, ids[0])] + DumpEntries(render, s, ids[1..])
  }

  lemma {:induction false} DumpEntriesIndex(render: (Ast, CellId) -> string, s: Store, ids: seq<CellId>, i: nat)
    requires i < |ids|
    ensures DumpEntries(render, s, ids)[i] == DumpEntry(render, s, ids[i])
    decreases i
  {
    if i > 0 {
      DumpEntriesIndex(render, s, ids[1..], i - 1);
    }
  }

  lemma {:induction false} DumpEntriesAppend(render: (Ast, CellId) -> string, s: Store, a: seq<CellId>, b: seq<CellId>)
    ensures DumpEntries(render, s, a + b) == DumpEntries(render, s, a) + DumpEntries(render, s, b)
    decreases |a|
  {
    if a == [] {
      assert a + b == b;
    } else {
      assert (a + b)[0] == a[0] && (a + b)[1..] == a[1..] + b;
      DumpEntriesAppend(render, s, a[1..], b);
      var e0 := [DumpEntry(render, s, a[0])];
      calc {
        DumpEntries(render, s, a + b);
        e0 + DumpEntries(render, s, a[1..] + b);
        e0 + (DumpEntries(render, s, a[1..]) + DumpEntries(render, s, b));
        { SeqAssoc(e0, DumpEntries(render, s, a[1..]), DumpEntries(render, s, b)); }
        e0 + DumpEntries(render, s, a[1..]) + DumpEntries(render, s, b);
      }
    }
  }

  lemma DumpEntriesSnoc(render: (Ast, CellId) -> string, s: Store, ids: seq<CellId>, id: CellId)
    ensures DumpEntries(render, s, ids + [id]) == DumpEntries(render, s, ids) + [DumpEntry(render, s, id)]
  {
    DumpEntriesAppend(render, s, ids, [id]);
    assert DumpEntries(render, s, [id]) == [DumpEntry(render, s, id)];
  }

  /** `Comparator` places a before b when a's id is the smaller string. */
  function InsertEntry(e: (CellId, string), es: seq<(CellId, string)>): (r: seq<(CellId, string)>)
    ensures |r| == |es| + 1
    decreases |es|
  {
    if es == [] then [e]
    else if Below(es[0].0, e.0) then [es[0]] + InsertEntry(e, es[1..])
    else [e] + es
  }

  /** `final_array.sort(Comparator)`: the pairs ordered by id. */
  function SortEntries(es: seq<(CellId, string)>): (r: seq<(CellId, string)>)
    ensures |r| == |es|
    decreases |es|
  {
    if es == [] then [] else InsertEntry(es[0], SortEntries(es[1..]))
  }

  lemma {:induction false} InsertEntryIds(render: (Ast, CellId) -> string, s: Store, x: CellId, ids: seq<CellId>)
    ensures InsertEntry(DumpEntry(render, s, x), DumpEntries(render, s, ids)) == DumpEntries(render, s, Insert(x, ids))
    decreases |ids|
  {
    var ex := DumpEntry(render, s, x);
    var es := DumpEntries(render, s, ids);
    if ids == [] {
      assert es == [];
      assert Insert(x, ids) == [x];
    } else {
      var e0 := DumpEntry(render, s, ids[0]);
      var rest := DumpEntries(render, s, ids[1..]);
      assert es[0] == e0 && e0.0 == ids[0];
      assert es[1..] == rest;
      if Below(ids[0], x) {
        InsertEntryIds(render, s, x, ids[1..]);
        var ins := Insert(x, ids[1..]);
        assert Insert(x, ids) == [ids[0]] + ins;
        DumpEntriesAppend(render, s, [ids[0]], ins);
        assert DumpEntries(render, s, [ids[0]]) == [e0];
        calc {
          InsertEntry(ex, es);
          [e0] + InsertEntry(ex, rest);
          [e0] + DumpEntries(render, s, ins);
          DumpEntries(render, s, Insert(x, ids));
        }
      } else {
        assert InsertEntry(ex, es) == [ex] + es;
        assert Insert(x, ids) == [x] + ids;
        DumpEntriesAppend(render, s, [x], ids);
        assert DumpEntries(render, s, [x]) == [ex];
      }
    }
  }

  /** Sorting the pairs by id is sorting the ids and pairing each with its formula. */
  lemma {:induction false} SortEntriesIds(render: (Ast, CellId) -> string, s: Store, ids: seq<CellId>)
    ensures SortEntries(DumpEntries(render, s, ids)) == DumpEntries(render, s, SortIds(ids))
    decreases |ids|
  {
    if ids != [] {
      var es := DumpEntries(render, s, ids);
      assert es[1..] == DumpEntries(render, s, ids[1..]);
      SortEntriesIds(render, s, ids[1..]);
      InsertEntryIds(render, s, ids[0], SortIds(ids[1..]));
    }
  }

  lemma SnocAssoc<T>(a: seq<T>, b: seq<T>, x: T)
    ensures a + b + [x] == a + (b + [x])
  {
  }

  lemma SeqAssoc<T>(a: seq<T>, b: seq<T>, c: seq<T>)
    ensures a + (b + c) == a + b + c
  {
  }

  lemma SplitAppend<T>(a: seq<T>, b: seq<T>, n: nat)
    requires n <= |a|
    ensures (a + b)[..n] == a[..n] && (a + b)[n..] == a[n..] + b
  {
  }

  /** The test of the first loop of `dump`. */
  lemma NoPrereqsTest(pre: map<CellId, seq<CellId>>, k: CellId)
    requires k in pre
    ensures Picks(NoPrereqs(pre), k) == (|pre[k]| == 0)
    ensures Picks(SomePrereqs(pre), k) == (|pre[k]| != 0)
  {
  }

  /** The test of the second loop of `dump`, on a snapshot of `dependencies`. */
  lemma NeedsTest(pre: map<CellId, seq<CellId>>, deps: Prereqs, x: CellId, k: CellId)
    requires SubDict(deps, pre) && k in deps.m
    ensures Picks(Needs(pre, x), k) == (x in deps.m[k])
    ensures Picks(NeedsNot(pre, x), k) == (x !in deps.m[k])
  {
  }

  /**
   * One pass of a loop of `dump` over the entry at position i of a snapshot
   * e of `dependencies`, where the entries before i that stayed come first:
   * the entry sits between them and the entries not yet visited.
   */
  lemma PassAt(e: seq<CellId>, stay: Pick, deps: Prereqs, i: nat)
    requires NoDup(e) && i < |e|
    requires deps.keys == Select(e[..i], stay) + e[i..]
    ensures e[..i + 1] == e[..i] + [e[i]]
    ensures deps.keys == Select(e[..i], stay) + [e[i]] + e[i + 1..]
    ensures e[i] !in Select(e[..i], stay) && e[i] !in e[i + 1..]
  {
    var k := e[i];
    assert e == e[..i] + e[i..];
    NoDupDisjoint(e[..i], e[i..]);
    assert e[i..] == [k] + e[i + 1..];
    assert k !in e[i + 1..] by {
      NoDupSplit(e[..i], e[i..]);
    }
    SelectIn(e[..i], stay, k);
  }

  /** An entry that passes the test is listed and deleted. */
  lemma PassTaken(e: seq<CellId>, take: Pick, stay: Pick, deps: Prereqs, i: nat)
    requires NoDup(e) && i < |e| && deps.Valid()
    requires Picks(take, e[i]) && !Picks(stay, e[i])
    requires deps.keys == Select(e[..i], stay) + e[i..]
    ensures Select(e[..i + 1], take) == Select(e[..i], take) + [e[i]]
    ensures deps.Remove(e[i]).keys == Select(e[..i + 1], stay) + e[i + 1..]
  {
    var k := e[i];
    var kept := Select(e[..i], stay);
    PassAt(e, stay, deps, i);
    SelectSnoc(e[..i], k, take);
    SelectSnoc(e[..i], k, stay);
    WithoutOne(kept, k, e[i + 1..]);
    assert kept + [] == kept;
  }

  /** An entry that fails the test stays where it is. */
  lemma PassKept(e: seq<CellId>, take: Pick, stay: Pick, deps: Prereqs, i: nat)
    requires NoDup(e) && i < |e|
    requires !Picks(take, e[i]) && Picks(stay, e[i])
    requires deps.keys == Select(e[..i], stay) + e[i..]
    ensures Select(e[..i + 1], take) == Select(e[..i], take)
    ensures deps.keys == Select(e[..i + 1], stay) + e[i + 1..]
  {
    var k := e[i];
    PassAt(e, stay, deps, i);
    SelectSnoc(e[..i], k, take);
    SelectSnoc(e[..i], k, stay);
    assert Select(e[..i], take) + [] == Select(e[..i], take);
  }

  /** One pass, either way: what the loop body learns before its test. */
  lemma PassStep(e: seq<CellId>, take: Pick, stay: Pick, deps: Prereqs, i: nat)
    requires NoDup(e) && i < |e| && deps.Valid()
    requires Picks(take, e[i]) <==> !Picks(stay, e[i])
    requires deps.keys == Select(e[..i], stay) + e[i..]
    ensures var k := e[i];
      && (Picks(take, k) ==>
            && Select(e[..i + 1], take) == Select(e[..i], take) + [k]
            && deps.Remove(k).keys == Select(e[..i + 1], stay) + e[i + 1..])
      && (!Picks(take, k) ==>
            && Select(e[..i + 1], take) == Select(e[..i], take)
            && deps.keys == Select(e[..i + 1], stay) + e[i + 1..])
  {
    if Picks(take, e[i]) {
      PassTaken(e, take, stay, deps, i);
    } else {
      PassKept(e, take, stay, deps, i);
    }
  }

  class MemSpreadsheet {
    /** `_cells` */
    var cells: Store
    /** `_undos` */
    var undos: UndoLog
    /** `parse(formula, cellId)` from the expression parser; None is a SYNTAX error. */
    const parse: (string, CellId) -> Option<Ast>
    /** `ast.toString(baseCellId)` */
    const render: (Ast, CellId) -> string
    /** `cellRefToCellId` */
    const cellRefToCellId: string -> CellId

    ghost predicate Valid()
      reads this
    {
      WellFormed(cells) && WellFormedLog(undos)
    }

    constructor(parse: (string, CellId) -> Option<Ast>, render: (Ast, CellId) -> string, cellRefToCellId: string -> CellId)
      ensures Valid()
      ensures cells == EmptyDict() && undos == EmptyDict()
      ensures this.parse == parse && this.render == render && this.cellRefToCellId == cellRefToCellId
    {
      cells := EmptyDict();
      undos := EmptyDict();
      this.parse := parse;
      this.render := render;
      this.cellRefToCellId := cellRefToCellId;
    }

    /**
     * `_updateCell(cellId, fn)`: the single place cells change.  On the
     * first touch since the log was reset the cell is snapshotted (None
     * when absent); a missing cell is created empty; then the mutator runs.
     */
    method UpdateCell(cellId: CellId, u: Update) returns (cell: CellInfo)
      requires Valid()
      modifies this
      ensures Valid()
      ensures State(cells, undos) == Touched(old(State(cells, undos)), cellId, u)
      ensures cell == if u.DeleteCell? then Current(old(cells), cellId) else Updated(Current(old(cells), cellId), u)
    {
      TouchedSound(State(cells, undos), cellId, u);
      if cellId !in undos.m {
        undos := undos.Put(cellId, cells.Get(cellId));
      }
      if cellId !in cells.m {
        cells := cells.Put(cellId, NewCell(cellId));
      }
      cell := cells.m[cellId];
      if u.DeleteCell? {
        cells := cells.Remove(cell.id);
      } else {
        cell := Updated(cell, u);
        cells := cells.Put(cellId, cell);
      }
    }

    /**
     * `query(cellId)`: the value and formula of the cell with the `$`
     * signs removed from its id.  An unknown cell is inserted empty, with
     * no undo record, and reads as value 0 and formula ''.
     */
    method Query(cellId: string) returns (value: real, formula: string)
      requires Valid()
      modifies this
      ensures Valid()
      ensures cells == Queried(old(cells), cellId) && undos == old(undos)
      ensures value == Current(old(cells), StripDollar(cellId)).value
      ensures formula == FormulaText(render, Current(old(cells), StripDollar(cellId)))
      ensures StripDollar(cellId) !in old(cells).m ==> value == 0.0 && formula == ""
    {
      var id := StripDollar(cellId);
      var cell: CellInfo;
      if id in cells.m {
        cell := cells.m[id];
      } else {
        cell := NewCell(id);
        PutWellFormed(cells, id, cell);
        cells := cells.Put(id, cell);
      }
      value := cell.value;
      formula := FormulaText(render, cell);
    }

    /** `clear()`: no cells and no undo information. */
    method Clear()
      modifies this
      ensures Valid()
      ensures cells == EmptyDict() && undos == EmptyDict()
    {
      undos := EmptyDict();
      cells := EmptyDict();
    }

    /** `undo()`: replay the log, restoring each snapshot and removing each cell logged as absent. */
    method Undo()
      requires Valid()
      modifies this
      ensures Valid()
      ensures undos == old(undos)
      ensures cells == Replay(old(cells), undos, undos.keys)
    {
      var entries := undos;
      ghost var s0 := cells;
      var i := 0;
      while i < |entries.keys|
        invariant 0 <= i <= |entries.keys|
        invariant undos == entries
        invariant cells == Replay(s0, entries, entries.keys[..i])
      {
        var k := entries.keys[i];
        ReplayStep(s0, entries, entries.keys, i);
        match entries.m[k] {
          case Some(c) => cells := cells.Put(k, c);
          case None => cells := cells.Remove(k);
        }
        i := i + 1;
      }
      assert entries.keys[..i] == entries.keys;
      ReplaySound(s0, entries, entries.keys);
    }

    /**
     * `_evalAst(baseCellId, ast)` on a non-null formula: the value of the
     * formula against the cached values, adding baseCellId to the
     * dependents of every cell it refers to (creating missing ones).
     */
    method EvalNode(baseCellId: CellId, node: Ast) returns (v: real)
      requires Valid()
      modifies this
      ensures Valid()
      ensures State(cells, undos) == TouchAll(old(State(cells, undos)), RefList(node), AddDependent(baseCellId))
      ensures v == ValueOf(old(cells), node)
      decreases node
    {
      match node
      case Num(x) =>
        v := x;
      case Ref(id) =>
        assert [id][..0] == [];
        var cell := UpdateCell(id, AddDependent(baseCellId));
        v := cell.value;
      case App(fn, kids) =>
        var args := EvalKids(baseCellId, kids);
        v := Apply(fn, args);
    }

    /** `ast.kids.map(k => this._evalAst(baseCellId, k))`: each kid is evaluated in turn against the values cached at the start. */
    method EvalKids(baseCellId: CellId, kids: seq<Ast>) returns (args: seq<real>)
      requires Valid()
      modifies this
      ensures Valid()
      ensures State(cells, undos) == TouchAll(old(State(cells, undos)), RefListKids(kids), AddDependent(baseCellId))
      ensures args == ValuesOf(old(cells), kids)
      decreases kids
    {
      ghost var st0 := State(cells, undos);
      args := [];
      var i := 0;
      while i < |kids|
        invariant 0 <= i <= |kids|
        invariant Valid()
        invariant State(cells, undos) == TouchAll(st0, RefListKids(kids[..i]), AddDependent(baseCellId))
        invariant args == ValuesOf(st0.cells, kids[..i])
      {
        KidsStep(st0, kids, i, baseCellId);
        var a := EvalNode(baseCellId, kids[i]);
        args := args + [a];
        i := i + 1;
      }
      assert kids[..i] == kids;
    }

    /** `_evalAst(baseCellId, ast)`: a null formula is 0 and touches nothing. */
    method EvalAst(baseCellId: CellId, ast: Option<Ast>) returns (v: real)
      requires Valid()
      modifies this
      ensures Valid()
      ensures State(cells, undos) == TouchAll(old(State(cells, undos)), RefsOf(ast), AddDependent(baseCellId))
      ensures v == EvalValue(old(cells), ast)
    {
      if ast.None? {
        v := 0.0;
      } else {
        v := EvalNode(baseCellId, ast.value);
      }
    }

    /** `_removeAsDependent(baseCellId, ast)`: baseCellId leaves the dependents of every cell the formula refers to. */
    method RemoveAsDependent(baseCellId: CellId, node: Ast)
      requires Valid()
      modifies this
      ensures Valid()
      ensures State(cells, undos) == TouchAll(old(State(cells, undos)), RefList(node), RemoveDependent(baseCellId))
      decreases node
    {
      ghost var st0 := State(cells, undos);
      match node
      case Num(_) =>
      case Ref(id) =>
        assert [id][..0] == [];
        var _ := UpdateCell(id, RemoveDependent(baseCellId));
      case App(_, kids) =>
        var i := 0;
        while i < |kids|
          invariant 0 <= i <= |kids|
          invariant Valid()
          invariant State(cells, undos) == TouchAll(st0, RefListKids(kids[..i]), RemoveDependent(baseCellId))
        {
          RemoveAsDependent(baseCellId, kids[i]);
          TouchKidsStep(st0, kids, i, RemoveDependent(baseCellId));
          i := i + 1;
        }
        assert kids[..i] == kids;
    }

    /**
     * `eval(baseCellId, formula)`: reset the log, parse the formula
     * relative to the cell, store it, unlink the cell from the references
     * of its old formula, and evaluate it and everything depending on it.
     * Any error rolls every change back through `undo()`.
     */
    method Eval(baseCellId: string, formula: string) returns (res: Result<Values, Error>)
      requires Valid()
      modifies this
      ensures Valid()
      ensures res == Err(Syntax) <==> parse(formula, cellRefToCellId(baseCellId)).None?
      ensures res.Err? ==> cells == old(cells)
      ensures res.Ok? ==> Evaluated(old(cells), cells, cellRefToCellId(baseCellId), parse(formula, cellRefToCellId(baseCellId)).value,
                                    RefsOf(Current(old(cells), cellRefToCellId(baseCellId)).ast), res.value)
      ensures res.Ok? ==> Replay(cells, undos, undos.keys) == old(cells)
      ensures res.Ok? ==> forall k :: k in old(cells).m ==> k in cells.m
      ensures var id := cellRefToCellId(baseCellId); var ast := parse(formula, id);
        ast.Some? ==> var p := Prepared(old(cells), id, ast, Current(old(cells), id).ast).cells;
          && (Acyclic(p, id, {}) ==> res.Ok?)
          && (res.Err? && res.error.CircularRef? ==> CircularAt(p, id, {}, res.error.cell))
          && (res == Err(TypeError) ==> ReachesMissing(p, id))
    {
      undos := EmptyDict();
      var id := cellRefToCellId(baseCellId);
      var oldAst := if id in cells.m then cells.m[id].ast else None;
      var ast := parse(formula, id);
      if ast.None? {
        assert undos.keys == [];
        Undo();
        return Err(Syntax);
      }
      res := SetFormula(id, ast.value, oldAst);
    }

    /**
     * The body of `eval` after a successful parse: store the formula,
     * unlink the cell from the references of its old formula, evaluate it
     * and its dependents, and undo everything when that fails.
     */
    method SetFormula(id: CellId, ast: Ast, oldAst: Option<Ast>) returns (res: Result<Values, Error>)
      requires Valid() && undos == EmptyDict() && oldAst == Current(cells, id).ast
      modifies this
      ensures Valid()
      ensures res.Err? ==> res.error != Syntax && cells == old(cells)
      ensures res.Ok? ==> Evaluated(old(cells), cells, id, ast, RefsOf(oldAst), res.value)
      ensures res.Ok? ==> Replay(cells, undos, undos.keys) == old(cells)
      ensures res.Ok? ==> forall k :: k in old(cells).m ==> k in cells.m
      ensures var p := Prepared(old(cells), id, Some(ast), oldAst).cells;
        && (Acyclic(p, id, {}) ==> res.Ok?)
        && (res.Err? && res.error.CircularRef? ==> CircularAt(p, id, {}, res.error.cell))
        && (res == Err(TypeError) ==> ReachesMissing(p, id))
    {
      ghost var s0 := cells;
      var _ := UpdateCell(id, SetAst(Some(ast)));
      if oldAst.Some? {
        RemoveAsDependent(id, oldAst.value);
      }
      assert State(cells, undos) == Prepared(s0, id, Some(ast), oldAst);
      ghost var universe := EvalReady(s0, id, ast, oldAst);
      res := EvalCell(id, {}, universe);
      EvalOutcome(s0, id, ast, oldAst, cells, undos, res);
      if res.Err? {
        Undo();
      }
    }

    /**
     * `delete(cellId)`: reset the log; a cell that is not filed under the
     * raw cellId gives `{}`.  Otherwise the cell is removed and each of its
     * dependents is re-evaluated with `eval(d, query(d).formula)`, in
     * order, merging every report into the result.  An error from one of
     * these evaluations propagates: that evaluation is undone, the
     * deletion and the evaluations before it are not.
     */
    method Delete(cellId: string) returns (res: Result<Values, Error>)
      requires Valid()
      modifies this
      ensures Valid()
      ensures cellId !in old(cells).m ==> res == Ok(EmptyDict()) && cells == old(cells) && undos == EmptyDict()
      ensures cellId in old(cells).m && old(cells).m[cellId].dependents == [] ==>
        && res == Ok(EmptyDict()) && cells == old(cells).Remove(cellId)
        && undos == EmptyDict().Put(cellId, Some(old(cells).m[cellId]))
      ensures res.Ok? ==> Merged(old(cells).Remove(cellId), cells, res.value)
      ensures res.Ok? && cellId in old(cells).m ==>
        forall d :: d in old(cells).m[cellId].dependents ==> cellRefToCellId(d) in res.value.m
      ensures cellId !in Targets(cellRefToCellId, Current(old(cells), cellId).dependents) ==> Current(cells, cellId).ast.None?
      ensures forall k :: k != cellId && k !in Targets(cellRefToCellId, Current(old(cells), cellId).dependents) ==>
        Current(cells, k).ast == Current(old(cells), k).ast
      // each `eval` resets the log, so after a re-evaluation `undo()` does not bring the deleted formula back
      ensures res.Ok? && cellId in old(cells).m && old(cells).m[cellId].dependents != [] &&
              cellId !in Targets(cellRefToCellId, old(cells).m[cellId].dependents) ==>
        Current(Replay(cells, undos, undos.keys), cellId).ast.None?
    {
      undos := EmptyDict();
      var updates: Values := EmptyDict();
      if cellId !in cells.m {
        return Ok(updates);
      }
      var dependents := cells.m[cellId].dependents;
      ghost var s1 := cells.Remove(cellId);
      var _ := UpdateCell(cellId, DeleteCell);
      assert cells == s1;
      res := Ok(updates);
      if |dependents| > 0 {
        res := ReevaluateAll(dependents, s1);
        TargetsStep(cellRefToCellId, dependents, |dependents| - 1);
      }
    }

    /**
     * The loop of `delete` over the dependents of the deleted cell: only
     * the formulas of the cells the dependents name are stored again, and
     * every reported cell ends fresh.
     */
    method ReevaluateAll(dependents: seq<CellId>, ghost s1: Store) returns (res: Result<Values, Error>)
      requires Valid() && cells == s1
      modifies this
      ensures Valid()
      ensures res.Ok? ==> Merged(s1, cells, res.value)
      ensures res.Ok? ==> forall d :: d in dependents ==> cellRefToCellId(d) in res.value.m
      ensures FormulasKept(s1, cells, Targets(cellRefToCellId, dependents))
      // the log is the one the last dependent's `eval` left: it undoes only that evaluation
      ensures res.Ok? && |dependents| > 0 ==>
        FormulasKept(s1, Replay(cells, undos, undos.keys), Targets(cellRefToCellId, dependents[..|dependents| - 1]))
    {
      var updates: Values := EmptyDict();
      var i := 0;
      assert DeleteLoop(cellRefToCellId, dependents, 0, s1, cells, updates, Replay(cells, undos, undos.keys));
      while i < |dependents|
        invariant Valid() && DeleteLoop(cellRefToCellId, dependents, i, s1, cells, updates, Replay(cells, undos, undos.keys))
      {
        ghost var s2 := cells;
        ghost var s2u := Replay(cells, undos, undos.keys);
        var r := Reevaluate(dependents[i], updates, s1);
        if r.Err? {
          TargetsStep(cellRefToCellId, dependents, i);
          FormulasKeptTrans(s1, s2, cells, Targets(cellRefToCellId, dependents[..i]), {cellRefToCellId(dependents[i])});
          return r;
        }
        DeleteLoopStep(cellRefToCellId, dependents, i, s1, s2, cells, updates, r.value, s2u, Replay(cells, undos, undos.keys));
        updates := r.value;
        i := i + 1;
      }
      assert dependents[..i] == dependents;
      res := Ok(updates);
    }

    /** One turn of the loop of `delete`: re-evaluate a dependent from its own formula and merge its report. */
    method Reevaluate(dependent: CellId, updates: Values, ghost s1: Store) returns (res: Result<Values, Error>)
      requires Valid() && Merged(s1, cells, updates)
      modifies this
      ensures Valid()
      ensures res.Ok? ==> Merged(s1, cells, res.value)
      ensures res.Ok? ==> cellRefToCellId(dependent) in res.value.m && forall k :: k in updates.m ==> k in res.value.m
      ensures FormulasKept(old(cells), cells, {cellRefToCellId(dependent)})
      ensures res.Ok? ==> Replay(cells, undos, undos.keys) == Queried(old(cells), dependent)
    {
      var _, formula := Query(dependent);
      ghost var s2 := cells;
      var r := Eval(dependent, formula);
      if r.Err? {
        return r;
      }
      MergeStep(s1, old(cells), s2, cells, cellRefToCellId(dependent), parse(formula, cellRefToCellId(dependent)).value,
                RefsOf(Current(s2, cellRefToCellId(dependent)).ast), updates, r.value);
      res := Ok(Assign(updates, r.value));
    }

    /**
     * `copy(destCellId, srcCellId)`: reset the log and query the source
     * (which files an empty cell under its `$`-free id when there is
     * none).  An empty formula makes the copy a `delete` of the
     * destination.  Otherwise the formula of the cell filed under the raw
     * srcCellId is rendered relative to the destination and evaluated
     * there; a cell missing under that raw id, or one without a formula,
     * makes the source read a property of `undefined` or `null`.
     */
    method Copy(destCellId: string, srcCellId: string) returns (res: Result<Values, Error>)
      requires Valid()
      modifies this
      ensures Valid()
      ensures var q := Queried(old(cells), srcCellId);
        FormulaText(render, Current(old(cells), StripDollar(srcCellId))) == "" && destCellId !in q.m ==>
          res == Ok(EmptyDict()) && cells == q
      ensures var q := Queried(old(cells), srcCellId);
        FormulaText(render, Current(old(cells), StripDollar(srcCellId))) == "" && destCellId in q.m && q.m[destCellId].dependents == [] ==>
          res == Ok(EmptyDict()) && cells == q.Remove(destCellId)
      ensures res.Ok? ==> res.value.Valid() && Agrees(cells, res.value) && AllFresh(cells, res.value)
      ensures var q := Queried(old(cells), srcCellId);
        FormulaText(render, Current(old(cells), StripDollar(srcCellId))) != "" && (srcCellId !in q.m || q.m[srcCellId].ast.None?) ==>
          res == Err(TypeError) && cells == q
      ensures var q := Queried(old(cells), srcCellId);
        FormulaText(render, Current(old(cells), StripDollar(srcCellId))) != "" && srcCellId in q.m && q.m[srcCellId].ast.Some? ==>
          var id := cellRefToCellId(destCellId);
          var ast := parse(render(q.m[srcCellId].ast.value, destCellId), id);
          && (res == Err(Syntax) <==> ast.None?)
          && (res.Err? ==> cells == q)
          && (res.Ok? ==> Evaluated(q, cells, id, ast.value, RefsOf(Current(q, id).ast), res.value))
          && (res.Ok? ==> Replay(cells, undos, undos.keys) == q)
          && (ast.Some? ==> var p := Prepared(q, id, ast, Current(q, id).ast).cells;
                && (Acyclic(p, id, {}) ==> res.Ok?)
                && (res.Err? && res.error.CircularRef? ==> CircularAt(p, id, {}, res.error.cell))
                && (res == Err(TypeError) ==> ReachesMissing(p, id)))
    {
      undos := EmptyDict();
      var _, formula := Query(srcCellId);
      if formula == "" {
        res := Delete(destCellId);
        return;
      }
      if srcCellId !in cells.m || cells.m[srcCellId].ast.None? {
        return Err(TypeError);
      }
      var destFormula := render(cells.m[srcCellId].ast.value, destCellId);
      res := Eval(destCellId, destFormula);
    }

    /**
     * `_makePrereqs()`: for every non-empty cell, the non-empty cells that
     * have it among their dependents, in store order.
     */
    method MakePrereqs() returns (prereqs: Prereqs)
      requires Valid()
      ensures prereqs == PrereqsIn(cells)
    {
      var ids := Live(cells);
      SelectNoDup(cells.keys, NonEmptyCell(cells));
      prereqs := Dict(ids, map d | d in ids :: []);
      assert ids[..0] == [];
      var i := 0;
      while i < |ids|
        invariant 0 <= i <= |ids|
        invariant Collected(prereqs, cells, ids, i)
      {
        SelectIn(cells.keys, NonEmptyCell(cells), ids[i]);
        var cell := cells.m[ids[i]];
        prereqs := AddPrereqs(prereqs, cell, ids, i);
        CollectingEnd(prereqs, cells, ids, i);
        i := i + 1;
      }
      CollectedAll(prereqs, cells);
    }

    /** The inner loop of `_makePrereqs`: cell.id joins the entry of each of its dependents that has one. */
    method AddPrereqs(prereqs0: Prereqs, cell: CellInfo, ghost ids: seq<CellId>, ghost i: nat) returns (prereqs: Prereqs)
      requires Valid() && Collected(prereqs0, cells, ids, i) && i < |ids| && ids[i] in cells.m && cell == cells.m[ids[i]]
      ensures Collecting(prereqs, cells, ids, i, |cells.m[ids[i]].dependents|)
    {
      assert cell.id == ids[i] && NoDup(cell.dependents);
      prereqs := prereqs0;
      CollectingStart(prereqs, cells, ids, i);
      var j := 0;
      while j < |cell.dependents|
        invariant 0 <= j <= |cell.dependents|
        invariant Collecting(prereqs, cells, ids, i, j)
      {
        var d := cell.dependents[j];
        CollectingStep(prereqs, cells, ids, i, j);
        if d in prereqs.m {
          prereqs := prereqs.Put(d, prereqs.m[d] + [cell.id]);
        }
        j := j + 1;
      }
    }

    /**
     * `dump()`: the `[cellId, formula]` pairs of the non-empty cells in
     * the order DumpOrder gives (see the lemmas about it), each formula
     * read through `query`.
     */
    method Dump() returns (final: seq<(CellId, string)>)
      requires Valid()
      modifies this
      ensures Valid() && undos == old(undos)
      ensures final == DumpEntries(render, old(cells), DumpOrder(old(cells)))
      ensures |Roots(old(cells))| <= |DumpOrder(old(cells))|
      ensures cells == QueriedAll(old(cells), Roots(old(cells)) + DumpOrder(old(cells))[|Roots(old(cells))|..])
    {
      ghost var s0 := cells;
      var dependencies := MakePrereqs();
      ghost var pre := dependencies.m;
      var roots;
      roots, dependencies := ListRoots(dependencies);
      SortEntriesIds(render, s0, Roots(s0));
      SortIdsSorted(Roots(s0));
      final := SortEntries(roots);
      final := ListRest(final, SortIds(Roots(s0)), dependencies, pre, s0, Roots(s0));
    }

    /**
     * The first loop of `dump`: every entry without prerequisites is
     * listed, in key order, and deleted from `dependencies`.
     */
    method ListRoots(entries: Prereqs) returns (final: seq<(CellId, string)>, dependencies: Prereqs)
      requires Valid() && entries.Valid()
      modifies this
      ensures Valid() && undos == old(undos)
      ensures final == DumpEntries(render, old(cells), Select(entries.keys, NoPrereqs(entries.m)))
      ensures SubDict(dependencies, entries.m) && dependencies.keys == Select(entries.keys, SomePrereqs(entries.m))
      ensures cells == QueriedAll(old(cells), Select(entries.keys, NoPrereqs(entries.m)))
    {
      ghost var s0 := cells;
      var e := entries.keys;
      dependencies := entries;
      final := [];
      ghost var done := [];
      var i := 0;
      while i < |e|
        invariant 0 <= i <= |e|
        invariant Valid() && undos == old(undos)
        invariant done == Select(e[..i], NoPrereqs(entries.m))
        invariant final == DumpEntries(render, s0, done) && cells == QueriedAll(s0, done)
        invariant SubDict(dependencies, entries.m) && dependencies.keys == Select(e[..i], SomePrereqs(entries.m)) + e[i..]
      {
        var k := e[i];
        assert k in entries.m && NoDup(e) && dependencies.Valid();
        NoPrereqsTest(entries.m, k);
        PassStep(e, NoPrereqs(entries.m), SomePrereqs(entries.m), dependencies, i);
        if |entries.m[k]| == 0 {
          var _, formula := Query(k);
          QueriedAllCurrent(s0, done, StripDollar(k));
          QueriedAllSnoc(s0, done, k);
          DumpEntriesSnoc(render, s0, done, k);
          final := final + [(k, formula)];
          done := done + [k];
          dependencies := dependencies.Remove(k);
        }
        i := i + 1;
      }
      assert e[..i] == e;
    }

    /**
     * The second loop of `dump`: the pairs listed so far are visited in
     * turn, including those appended on the way, and each turn appends the
     * waiting cells that have the visited cell among their prerequisites.
     * `queried` are the ids queried before.
     */
    method ListRest(final0: seq<(CellId, string)>, ghost ids0: seq<CellId>, dependencies0: Prereqs,
                    ghost pre: map<CellId, seq<CellId>>, ghost s0: Store, ghost queried: seq<CellId>)
      returns (final: seq<(CellId, string)>)
      requires Valid() && final0 == DumpEntries(render, s0, ids0)
      requires cells == QueriedAll(s0, queried)
      requires SubDict(dependencies0, pre)
      modifies this
      ensures Valid() && undos == old(undos)
      ensures final == DumpEntries(render, s0, Grow(ids0, 0, dependencies0.keys, pre))
      ensures |ids0| <= |Grow(ids0, 0, dependencies0.keys, pre)|
      ensures cells == QueriedAll(s0, queried + Grow(ids0, 0, dependencies0.keys, pre)[|ids0|..])
    {
      ghost var more := [];
      var dependencies := dependencies0;
      final := final0;
      var p := 0;
      GrowPrefix(ids0, 0, dependencies0.keys, pre);
      assert ids0 + [] == ids0 && queried + [] == queried;
      while p < |final|
        invariant p <= |final|
        invariant Valid() && undos == old(undos)
        invariant final == DumpEntries(render, s0, ids0 + more)
        invariant cells == QueriedAll(s0, queried + more)
        invariant SubDict(dependencies, pre)
        invariant Grow(ids0 + more, p, dependencies.keys, pre) == Grow(ids0, 0, dependencies0.keys, pre)
        decreases |dependencies.keys|, |final| - p
      {
        ghost var waiting := dependencies.keys;
        ghost var appended;
        final, appended, dependencies := ListTurn(final, ids0 + more, p, dependencies, pre, s0, queried + more);
        GrowTurn(ids0 + more, p, waiting, pre, appended, dependencies.keys);
        SeqAssoc(ids0, more, appended);
        SeqAssoc(queried, more, appended);
        assert final == DumpEntries(render, s0, ids0 + (more + appended));
        assert cells == QueriedAll(s0, queried + (more + appended));
        more := more + appended;
        p := p + 1;
      }
      assert Grow(ids0 + more, p, dependencies.keys, pre) == ids0 + more;
      assert (ids0 + more)[|ids0|..] == more;
    }

    /**
     * One turn of the second loop of `dump` on the pair at position p:
     * each waiting cell whose prerequisites include its id is listed and
     * deleted from `dependencies`.
     */
    method ListTurn(final0: seq<(CellId, string)>, ghost ids0: seq<CellId>, p: nat, dependencies0: Prereqs,
                    ghost pre: map<CellId, seq<CellId>>, ghost s0: Store, ghost queried: seq<CellId>)
      returns (final: seq<(CellId, string)>, ghost appended: seq<CellId>, dependencies: Prereqs)
      requires Valid() && final0 == DumpEntries(render, s0, ids0) && p < |ids0|
      requires cells == QueriedAll(s0, queried)
      requires SubDict(dependencies0, pre)
      modifies this
      ensures Valid() && undos == old(undos)
      ensures appended == Select(dependencies0.keys, Needs(pre, ids0[p]))
      ensures final == DumpEntries(render, s0, ids0 + appended)
      ensures SubDict(dependencies, pre) && dependencies.keys == Select(dependencies0.keys, NeedsNot(pre, ids0[p]))
      ensures cells == QueriedAll(s0, queried + appended)
    {
      var x := final0[p].0;
      DumpEntriesIndex(render, s0, ids0, p);
      ghost var take, stay := Needs(pre, x), NeedsNot(pre, x);
      ghost var s1 := cells;
      var e := dependencies0.keys;
      var got := [];
      dependencies := dependencies0;
      appended := [];
      assert e[..0] == [] && e[0..] == e && [] + e == e;
      assert Select(e[..0], stay) == [] && Select(e[..0], take) == [];
      var i := 0;
      while i < |e|
        invariant 0 <= i <= |e|
        invariant Valid() && undos == old(undos)
        invariant appended == Select(e[..i], take)
        invariant got == DumpEntries(render, s0, appended) && cells == QueriedAll(s1, appended)
        invariant SubDict(dependencies, pre) && dependencies.keys == Select(e[..i], stay) + e[i..]
      {
        var k := e[i];
        assert k in dependencies0.m && NoDup(e) && dependencies.Valid();
        NeedsTest(pre, dependencies0, x, k);
        PassStep(e, take, stay, dependencies, i);
        if x in dependencies0.m[k] {
          var _, formula := Query(k);
          QueriedAllCurrent(s1, appended, StripDollar(k));
          QueriedAllCurrent(s0, queried, StripDollar(k));
          QueriedAllSnoc(s1, appended, k);
          DumpEntriesSnoc(render, s0, appended, k);
          got := got + [(k, formula)];
          appended := appended + [k];
          dependencies := dependencies.Remove(k);
        }
        i := i + 1;
      }
      assert e[..i] == e;
      final := final0 + got;
      DumpEntriesAppend(render, s0, ids0, appended);
      QueriedAllAppend(s0, queried, appended);
    }

    /**
     * `_evalCell(cell, working)` on the cell filed under id: compute its
     * value from its formula, store it, then evaluate its dependents (see
     * EvalDependents).  The working set is passed by value: the source
     * restores it before returning normally and discards it after a throw.
     * `universe` holds every id the store can come to mention and bounds
     * the recursion.
     */
    method EvalCell(id: CellId, working: set<CellId>, ghost universe: set<CellId>) returns (res: Result<Values, Error>)
      requires Valid() && Closed(cells, universe)
      requires id in cells.m && id in universe && working <= universe && id !in working
      modifies this
      ensures Valid() && Closed(cells, universe)
      ensures Evolves(old(cells), old(undos), cells, undos)
      ensures res.Ok? ==> EvalOk(old(cells), cells, id, working, res.value)
      ensures res.Err? ==> res.error != Syntax
      ensures Acyclic(old(cells), id, working) ==> res.Ok?
      ensures res.Err? && res.error.CircularRef? ==> CircularAt(old(cells), id, working, res.error.cell)
      ensures res == Err(TypeError) ==> ReachesMissing(old(cells), id)
      decreases universe - working, 2
    {
      ghost var s0, u0 := cells, undos;
      var cell := cells.m[id];
      LoopStart(s0, u0, id, working, EvalValue(s0, cell.ast), universe);
      var value := EvalAst(cell.id, cell.ast);
      var _ := UpdateCell(cell.id, SetValue(value));
      var vals := EmptyDict().Put(id, value);
      res := EvalDependents(id, working, vals, s0, u0, universe);
    }

    /**
     * The loop of `_evalCell` over the dependents of id, including those
     * recorded while it runs, merging each dependent's report into vals.  A
     * dependent already being evaluated is a circular reference; a
     * dependent that is no longer stored makes the source read a property
     * of `undefined`.
     */
    method EvalDependents(id: CellId, working: set<CellId>, vals0: Values, ghost s0: Store, ghost u0: UndoLog, ghost universe: set<CellId>)
      returns (res: Result<Values, Error>)
      requires Valid() && Closed(cells, universe)
      requires id in universe && working <= universe && id !in working
      requires Looping(s0, u0, cells, undos, id, working, vals0, 0)
      modifies this
      ensures Valid() && Closed(cells, universe)
      ensures Evolves(s0, u0, cells, undos)
      ensures res.Ok? ==> EvalOk(s0, cells, id, working, res.value)
      ensures res.Err? ==> res.error != Syntax
      ensures Acyclic(s0, id, working) ==> res.Ok?
      ensures res.Err? && res.error.CircularRef? ==> CircularAt(s0, id, working, res.error.cell)
      ensures res == Err(TypeError) ==> ReachesMissing(s0, id)
      decreases universe - working, 1
    {
      var vals := vals0;
      var i := 0;
      NoDupBound(cells.m[id].dependents, universe);
      while i < |cells.m[id].dependents|
        invariant Valid() && Closed(cells, universe)
        invariant Looping(s0, u0, cells, undos, id, working, vals, i)
        invariant |cells.m[id].dependents| <= |universe|
        decreases |universe| - i
      {
        var r := VisitDependent(id, working, vals, i, s0, u0, universe);
        if r.Err? {
          return r;
        }
        vals := r.value;
        i := i + 1;
        NoDupBound(cells.m[id].dependents, universe);
      }
      LoopDone(s0, u0, cells, undos, id, working, vals, i);
      res := Ok(vals);
    }

    /**
     * One turn of the loop of `_evalCell` over the dependents of id: a
     * dependent already being evaluated is a circular reference, a
     * dependent missing from the store fails as `_evalCell(undefined)`
     * does, and otherwise its report is merged into vals.
     */
    method VisitDependent(id: CellId, working: set<CellId>, vals: Values, i: nat, ghost s0: Store, ghost u0: UndoLog, ghost universe: set<CellId>)
      returns (res: Result<Values, Error>)
      requires Valid() && Closed(cells, universe)
      requires id in universe && working <= universe && id !in working
      requires Looping(s0, u0, cells, undos, id, working, vals, i) && i < |cells.m[id].dependents|
      modifies this
      ensures Valid() && Closed(cells, universe)
      ensures Evolves(s0, u0, cells, undos)
      ensures res.Ok? ==> Looping(s0, u0, cells, undos, id, working, res.value, i + 1)
      ensures res.Err? ==> res.error != Syntax
      ensures var d := old(cells.m[id].dependents[i]);
        d in working + {id} ==> res == Err(CircularRef(d)) && cells == old(cells)
      ensures var d := old(cells.m[id].dependents[i]);
        d !in working + {id} && d !in old(cells.m) ==> res == Err(TypeError)
      ensures Acyclic(s0, id, working) ==> res.Ok?
      ensures res.Err? && res.error.CircularRef? ==> CircularAt(s0, id, working, res.error.cell)
      ensures res == Err(TypeError) ==> ReachesMissing(s0, id)
      decreases universe - working, 0
    {
      var dependent := cells.m[id].dependents[i];
      var w := working + {id};
      assert Edge(cells, id, dependent);
      if dependent in w {
        CircularHere(s0, u0, cells, undos, id, dependent, working);
        return Err(CircularRef(dependent));
      }
      if dependent !in cells.m {
        MissingHere(s0, u0, cells, undos, id, dependent);
        return Err(TypeError);
      }
      ghost var s1, u1 := cells, undos;
      var r := EvalCell(dependent, w, universe);
      DependentOutcome(s0, u0, s1, u1, cells, undos, id, dependent, working, r);
      if r.Err? {
        return r;
      }
      LoopStep(s0, u0, s1, u1, cells, undos, id, working, vals, r.value, i);
      res := Ok(Assign(vals, r.value));
    }
  }
}
