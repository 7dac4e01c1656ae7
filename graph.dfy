/**
 * The graph `_evalCell` walks.  An edge leads from a cell to every cell
 * recorded among its dependents and to every cell whose formula refers to
 * it.  `_evalCell` records a new dependent only under a cell the
 * dependent's formula refers to, so an evaluation never changes this graph;
 * that is what lets the outcome of `_evalCell` be stated in terms of the
 * store it started from.
 */
module Graph {
  import opened Formula
  import opened Cells
  import opened Updates

  /** An edge a → b: b is recorded as a dependent of a, or b's formula refers to a. */
  ghost predicate Edge(s: Store, a: CellId, b: CellId) {
    (a in s.m && b in s.m[a].dependents) || a in RefsOf(Current(s, b).ast)
  }

  /** b is reached from a along at most n + 1 edges. */
  ghost predicate ReachIn(s: Store, a: CellId, b: CellId, n: nat)
    decreases n
  {
    Edge(s, a, b) || (n > 0 && exists c :: Edge(s, a, c) && ReachIn(s, c, b, n - 1))
  }

  /** b is reached from a along one edge or more. */
  ghost predicate Reaches(s: Store, a: CellId, b: CellId) {
    exists n: nat :: ReachIn(s, a, b, n)
  }

  /**
   * Evaluating id while the cells of `working` are being evaluated meets
   * neither a cycle nor a missing cell: every cell reached from id is
   * stored, is not being evaluated, and lies on no cycle.
   */
  ghost predicate Acyclic(s: Store, id: CellId, working: set<CellId>) {
    forall x :: Reaches(s, id, x) ==> x in s.m && x !in working && !Reaches(s, x, x)
  }

  /** What a `CIRCULAR_REF` naming c means: c is reached from id and is being evaluated or lies on a cycle. */
  ghost predicate CircularAt(s: Store, id: CellId, working: set<CellId>, c: CellId) {
    Reaches(s, id, c) && (c in working || Reaches(s, c, c))
  }

  /** Some cell reached from id is not stored. */
  ghost predicate ReachesMissing(s: Store, id: CellId) {
    exists x :: Reaches(s, id, x) && x !in s.m
  }

  /** A circular reference or a missing cell reached from id rules out an acyclic evaluation. */
  lemma FailureMeansCycle(s: Store, id: CellId, working: set<CellId>)
    requires (exists c :: CircularAt(s, id, working, c)) || ReachesMissing(s, id)
    ensures !Acyclic(s, id, working)
  {
    if exists c :: CircularAt(s, id, working, c) {
      var c :| CircularAt(s, id, working, c);
    } else {
      var x :| Reaches(s, id, x) && x !in s.m;
    }
  }

  lemma ReachesEdge(s: Store, a: CellId, b: CellId)
    requires Edge(s, a, b)
    ensures Reaches(s, a, b)
  {
    assert ReachIn(s, a, b, 0);
  }

  /** An edge followed by a path is a path. */
  lemma ReachesStep(s: Store, a: CellId, c: CellId, b: CellId)
    requires Edge(s, a, c) && Reaches(s, c, b)
    ensures Reaches(s, a, b)
  {
    var n: nat :| ReachIn(s, c, b, n);
    assert ReachIn(s, a, b, n + 1);
  }

  /** An evaluation step keeps every edge and adds none. */
  lemma EdgeKept(s0: Store, u0: UndoLog, s: Store, u: UndoLog, a: CellId, b: CellId)
    requires Evolves(s0, u0, s, u)
    ensures Edge(s0, a, b) <==> Edge(s, a, b)
  {
    assert Current(s, b).ast == Current(s0, b).ast;
    if a in s0.m && b in s0.m[a].dependents {
      ExtendsHas(s0.m[a].dependents, s.m[a].dependents, b);
    }
  }

  lemma {:induction false} ReachInKept(s0: Store, u0: UndoLog, s: Store, u: UndoLog, a: CellId, b: CellId, n: nat)
    requires Evolves(s0, u0, s, u)
    ensures ReachIn(s0, a, b, n) <==> ReachIn(s, a, b, n)
    decreases n
  {
    EdgeKept(s0, u0, s, u, a, b);
    if n > 0 {
      forall c ensures (Edge(s0, a, c) && ReachIn(s0, c, b, n - 1)) <==> (Edge(s, a, c) && ReachIn(s, c, b, n - 1)) {
        EdgeKept(s0, u0, s, u, a, c);
        ReachInKept(s0, u0, s, u, c, b, n - 1);
      }
    }
  }

  /** An evaluation step keeps reachability as it was. */
  lemma ReachesKept(s0: Store, u0: UndoLog, s: Store, u: UndoLog, a: CellId, b: CellId)
    requires Evolves(s0, u0, s, u)
    ensures Reaches(s0, a, b) <==> Reaches(s, a, b)
  {
    forall n: nat ensures ReachIn(s0, a, b, n) <==> ReachIn(s, a, b, n) {
      ReachInKept(s0, u0, s, u, a, b, n);
    }
  }

  /**
   * A dependent d of id (in store s, reached from s0 by evaluation steps)
   * inherits acyclicity from id, with id added to the working set.
   */
  lemma AcyclicStep(s0: Store, u0: UndoLog, s: Store, u: UndoLog, id: CellId, d: CellId, working: set<CellId>)
    requires Evolves(s0, u0, s, u) && Edge(s, id, d) && Acyclic(s0, id, working)
    ensures Acyclic(s, d, working + {id})
  {
    forall x | Reaches(s, d, x) ensures x in s.m && x !in working + {id} && !Reaches(s, x, x) {
      ReachesStep(s, id, d, x);
      ReachesKept(s0, u0, s, u, id, x);
      ReachesKept(s0, u0, s, u, x, x);
      if x == id {
        assert Reaches(s0, id, id);
      }
    }
  }

  /** A dependent of id that is id itself or being evaluated is a circular reference reached from id. */
  lemma CircularHere(s0: Store, u0: UndoLog, s: Store, u: UndoLog, id: CellId, d: CellId, working: set<CellId>)
    requires Evolves(s0, u0, s, u) && Edge(s, id, d) && d in working + {id}
    ensures CircularAt(s0, id, working, d)
  {
    ReachesEdge(s, id, d);
    ReachesKept(s0, u0, s, u, id, d);
  }

  /** A dependent of id that is missing is a missing cell reached from id. */
  lemma MissingHere(s0: Store, u0: UndoLog, s: Store, u: UndoLog, id: CellId, d: CellId)
    requires Evolves(s0, u0, s, u) && Edge(s, id, d) && d !in s.m
    ensures ReachesMissing(s0, id)
  {
    ReachesEdge(s, id, d);
    ReachesKept(s0, u0, s, u, id, d);
  }

  /** A circular reference met below dependent d of id is one reached from id. */
  lemma CircularBelow(s0: Store, u0: UndoLog, s: Store, u: UndoLog, id: CellId, d: CellId, working: set<CellId>, c: CellId)
    requires Evolves(s0, u0, s, u) && Edge(s, id, d) && CircularAt(s, d, working + {id}, c)
    ensures CircularAt(s0, id, working, c)
  {
    ReachesStep(s, id, d, c);
    ReachesKept(s0, u0, s, u, id, c);
    ReachesKept(s0, u0, s, u, c, c);
  }

  /** A missing cell reached from dependent d of id is reached from id. */
  lemma MissingBelow(s0: Store, u0: UndoLog, s: Store, u: UndoLog, id: CellId, d: CellId)
    requires Evolves(s0, u0, s, u) && Edge(s, id, d) && ReachesMissing(s, d)
    ensures ReachesMissing(s0, id)
  {
    var x :| Reaches(s, d, x) && x !in s.m;
    ReachesStep(s, id, d, x);
    ReachesKept(s0, u0, s, u, id, x);
  }
}
