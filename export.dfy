/**
 * What `dump()` lists and in which order, as functions of the cell store:
 * the prerequisites object `_makePrereqs` builds, the leading block of
 * cells without prerequisites in lexicographic order, and the second phase
 * that appends every waiting cell as soon as one of its prerequisites has
 * been listed.
 */
module Export {
  import opened Wrappers
  import opened Ordered
  import opened Formula
  import opened Cells

  /** Cell id to the ids of its non-empty prerequisites: the object `_makePrereqs` returns. */
  type Prereqs = Dict<CellId, seq<CellId>>

  /** The tests the loops of `_makePrereqs` and `dump` apply to one id. */
  datatype Pick =
    | NonEmptyCell(s: Store)                         // `!cell.isEmpty()`
    | PrereqOf(s: Store, d: CellId)                  // d is among the cell's dependents
    | NoPrereqs(pre: map<CellId, seq<CellId>>)       // `dependents.length == 0`
    | SomePrereqs(pre: map<CellId, seq<CellId>>)     // an entry phase 1 leaves in place
    | Needs(pre: map<CellId, seq<CellId>>, x: CellId)     // `dependents.includes(x)`
    | NeedsNot(pre: map<CellId, seq<CellId>>, x: CellId)  // an entry phase 2 leaves in place

  predicate Picks(how: Pick, k: CellId) {
    match how
    case NonEmptyCell(s) => k in s.m && !IsEmpty(s.m[k])
    case PrereqOf(s, d) => k in s.m && d in s.m[k].dependents
    case NoPrereqs(pre) => k in pre && pre[k] == []
    case SomePrereqs(pre) => k in pre && pre[k] != []
    case Needs(pre, x) => k in pre && x in pre[k]
    case NeedsNot(pre, x) => k in pre && x !in pre[k]
  }

  /** The ids of ks that pass the test, in the order of ks. */
  function Select(ks: seq<CellId>, how: Pick): (r: seq<CellId>)
    ensures |r| <= |ks|
    decreases |ks|
  {
    if ks == [] then []
    else
      var last := ks[|ks| - 1];
      Select(ks[..|ks| - 1], how) + (if Picks(how, last) then [last] else [])
  }

  /** An id is selected iff it is among ks and passes the test. */
  lemma {:induction false} SelectIn(ks: seq<CellId>, how: Pick, k: CellId)
    ensures k in Select(ks, how) <==> k in ks && Picks(how, k)
    decreases |ks|
  {
    if ks != [] {
      SelectIn(ks[..|ks| - 1], how, k);
      assert k in ks <==> k in ks[..|ks| - 1] || k == ks[|ks| - 1];
    }
  }

  lemma {:induction false} SelectNoDup(ks: seq<CellId>, how: Pick)
    requires NoDup(ks)
    ensures NoDup(Select(ks, how))
    decreases |ks|
  {
    if ks != [] {
      var init, last := ks[..|ks| - 1], ks[|ks| - 1];
      assert ks == init + [last];
      NoDupSplit(init, [last]);
      NoDupDisjoint(init, [last]);
      SelectNoDup(init, how);
      if Picks(how, last) {
        SelectIn(init, how, last);
        NoDupSnoc(Select(init, how), last);
        assert Select(ks, how) == Select(init, how) + [last];
      } else {
        assert Select(ks, how) == Select(init, how) + [] == Select(init, how);
      }
    }
  }

  /** Two tests that never both hold select at most |ks| ids between them. */
  lemma {:induction false} SelectSplit(ks: seq<CellId>, a: Pick, b: Pick)
    requires forall k :: k in ks ==> !(Picks(a, k) && Picks(b, k))
    ensures |Select(ks, a)| + |Select(ks, b)| <= |ks|
    decreases |ks|
  {
    if ks != [] {
      SelectSplit(ks[..|ks| - 1], a, b);
    }
  }

  /** The ids of the non-empty cells, in the key order of the store. */
  function Live(s: Store): seq<CellId> {
    Select(s.keys, NonEmptyCell(s))
  }

  /**
   * `_makePrereqs()`: an entry for every non-empty cell, listing the
   * non-empty cells that have it among their dependents, in key order.
   */
  function PrereqsIn(s: Store): (p: Prereqs)
    ensures p.keys == Live(s)
    ensures s.Valid() ==> p.Valid()
  {
    assert s.Valid() ==> NoDup(Live(s)) by {
      if s.Valid() { SelectNoDup(s.keys, NonEmptyCell(s)); }
    }
    Dict(Live(s), map d | d in Live(s) :: Select(Live(s), PrereqOf(s, d)))
  }

  /**
   * The prerequisites are exactly the other direction of the dependents
   * edges between non-empty cells: c is listed for d iff both are
   * non-empty cells and d is a dependent of c; each is listed once.
   */
  lemma PrereqsMeaning(s: Store, d: CellId, c: CellId)
    requires s.Valid()
    ensures d in PrereqsIn(s).m <==> d in s.m && !IsEmpty(s.m[d])
    ensures d in PrereqsIn(s).m ==>
      && (c in PrereqsIn(s).m[d] <==> c in s.m && !IsEmpty(s.m[c]) && d in s.m[c].dependents)
      && NoDup(PrereqsIn(s).m[d])
  {
    SelectNoDup(s.keys, NonEmptyCell(s));
    SelectNoDup(Live(s), PrereqOf(s, d));
    SelectIn(s.keys, NonEmptyCell(s), d);
    SelectIn(s.keys, NonEmptyCell(s), c);
    SelectIn(Live(s), PrereqOf(s, d), c);
  }

  /** JavaScript's `a < b` on strings: lexicographic order of the characters, a proper prefix first. */
  predicate Below(a: string, b: string)
    decreases |a|
  {
    |b| > 0 && (|a| == 0 || a[0] < b[0] || (a[0] == b[0] && Below(a[1..], b[1..])))
  }

  lemma {:induction false} BelowIrreflexive(a: string)
    ensures !Below(a, a)
    decreases |a|
  {
    if |a| > 0 {
      BelowIrreflexive(a[1..]);
    }
  }

  /** Of two different strings one is below the other. */
  lemma {:induction false} BelowTotal(a: string, b: string)
    requires a != b
    ensures Below(a, b) || Below(b, a)
    decreases |a|
  {
    if |a| > 0 && |b| > 0 && a[0] == b[0] {
      assert a == [a[0]] + a[1..] && b == [b[0]] + b[1..];
      BelowTotal(a[1..], b[1..]);
    }
  }

  lemma {:induction false} BelowTransitive(a: string, b: string, c: string)
    requires Below(a, b) && Below(b, c)
    ensures Below(a, c)
    decreases |a|
  {
    if |a| > 0 && a[0] == b[0] && b[0] == c[0] {
      BelowTransitive(a[1..], b[1..], c[1..]);
    }
  }

  /** Neighbours are in order: no id is below the one before it. */
  predicate Sorted(s: seq<CellId>) {
    forall i :: 0 < i < |s| ==> !Below(s[i], s[i - 1])
  }

  /** One step of sorting by the `Comparator` of `dump`: x goes before the first id it is not above. */
  function Insert(x: CellId, s: seq<CellId>): (r: seq<CellId>)
    ensures multiset(r) == multiset(s) + multiset{x}
    ensures |r| == |s| + 1
    decreases |s|
  {
    if s == [] then [x]
    else if Below(s[0], x) then
      assert s == [s[0]] + s[1..];
      [s[0]] + Insert(x, s[1..])
    else [x] + s
  }

  lemma {:induction false} InsertSorted(x: CellId, s: seq<CellId>)
    requires Sorted(s)
    ensures Sorted(Insert(x, s))
    ensures |s| > 0 ==> Insert(x, s)[0] == (if Below(s[0], x) then s[0] else x)
    decreases |s|
  {
    if s != [] && Below(s[0], x) {
      var r := Insert(x, s[1..]);
      InsertSorted(x, s[1..]);
      if |s| > 1 {
        assert !Below(s[1], s[0]);
        if r[0] == x {
          BelowIrreflexive(x);
          if Below(x, s[0]) {
            BelowTransitive(x, s[0], x);
          }
        }
      } else {
        assert r == [x];
        if Below(x, s[0]) {
          BelowTransitive(x, s[0], x);
          BelowIrreflexive(x);
        }
      }
      assert ([s[0]] + r)[1..] == r;
    }
  }

  lemma {:induction false} InsertNoDup(x: CellId, s: seq<CellId>)
    requires NoDup(s) && x !in s
    ensures NoDup(Insert(x, s))
    decreases |s|
  {
    if s != [] && Below(s[0], x) {
      InsertNoDup(x, s[1..]);
      assert s[0] !in multiset(Insert(x, s[1..]));
    }
  }

  /** `final_array.sort(Comparator)` on the ids. */
  function SortIds(s: seq<CellId>): (r: seq<CellId>)
    ensures multiset(r) == multiset(s)
    decreases |s|
  {
    if s == [] then []
    else
      assert s == [s[0]] + s[1..];
      Insert(s[0], SortIds(s[1..]))
  }

  /** The sort orders the ids and keeps exactly the ids it was given. */
  lemma {:induction false} SortIdsSorted(s: seq<CellId>)
    ensures Sorted(SortIds(s))
    ensures |SortIds(s)| == |s|
    ensures forall x :: x in SortIds(s) <==> x in s
    ensures NoDup(s) ==> NoDup(SortIds(s))
    decreases |s|
  {
    if s != [] {
      assert s == [s[0]] + s[1..];
      SortIdsSorted(s[1..]);
      InsertSorted(s[0], SortIds(s[1..]));
      if NoDup(s) {
        InsertNoDup(s[0], SortIds(s[1..]));
      }
    }
    assert forall x :: x in SortIds(s) <==> x in multiset(SortIds(s));
  }

  /**
   * The second phase of `dump`: while the entry at index p of the output
   * exists, every waiting cell whose prerequisites include it is appended,
   * in the order of the waiting cells, and leaves the waiting list.
   */
  function Grow(out: seq<CellId>, p: nat, waiting: seq<CellId>, pre: map<CellId, seq<CellId>>): seq<CellId>
    decreases |waiting|, |out| - p
  {
    if p >= |out| then out
    else
      var hits := Select(waiting, Needs(pre, out[p]));
      var rest := Select(waiting, NeedsNot(pre, out[p]));
      SelectSplit(waiting, Needs(pre, out[p]), NeedsNot(pre, out[p]));
      assert hits != [] ==> |rest| < |waiting|;
      Grow(out + hits, p + 1, rest, pre)
  }

  /** The cells without prerequisites, in key order: what phase 1 of `dump` collects. */
  function Roots(s: Store): seq<CellId> {
    var pre := PrereqsIn(s);
    Select(pre.keys, NoPrereqs(pre.m))
  }

  /** The cells phase 1 of `dump` leaves in `dependencies`, in key order. */
  function Waiting(s: Store): seq<CellId> {
    var pre := PrereqsIn(s);
    Select(pre.keys, SomePrereqs(pre.m))
  }

  /** The ids `dump()` lists, in its order. */
  function DumpOrder(s: Store): seq<CellId> {
    Grow(SortIds(Roots(s)), 0, Waiting(s), PrereqsIn(s).m)
  }

  /** One turn of phase 2: the cells that need out[p] are appended, the others keep waiting. */
  lemma GrowStep(out: seq<CellId>, p: nat, waiting: seq<CellId>, pre: map<CellId, seq<CellId>>) returns (hits: seq<CellId>, rest: seq<CellId>)
    requires p < |out|
    ensures hits == Select(waiting, Needs(pre, out[p])) && rest == Select(waiting, NeedsNot(pre, out[p]))
    ensures Grow(out, p, waiting, pre) == Grow(out + hits, p + 1, rest, pre)
    ensures forall k :: k in hits <==> k in waiting && k in pre && out[p] in pre[k]
    ensures forall k :: k in rest <==> k in waiting && k in pre && out[p] !in pre[k]
  {
    hits := Select(waiting, Needs(pre, out[p]));
    rest := Select(waiting, NeedsNot(pre, out[p]));
    forall k
      ensures k in hits <==> k in waiting && k in pre && out[p] in pre[k]
      ensures k in rest <==> k in waiting && k in pre && out[p] !in pre[k]
    {
      SelectIn(waiting, Needs(pre, out[p]), k);
      SelectIn(waiting, NeedsNot(pre, out[p]), k);
    }
  }

  /** Phase 2 only appends: the output so far stays its prefix. */
  lemma {:induction false} GrowPrefix(out: seq<CellId>, p: nat, waiting: seq<CellId>, pre: map<CellId, seq<CellId>>)
    ensures var r := Grow(out, p, waiting, pre); |out| <= |r| && forall i :: 0 <= i < |out| ==> r[i] == out[i]
    ensures forall x :: x in out ==> x in Grow(out, p, waiting, pre)
    decreases |waiting|, |out| - p
  {
    if p < |out| {
      var hits, rest := GrowStep(out, p, waiting, pre);
      SelectSplit(waiting, Needs(pre, out[p]), NeedsNot(pre, out[p]));
      GrowPrefix(out + hits, p + 1, rest, pre);
    }
  }

  /** Phase 2 lists the output so far and waiting cells, each once. */
  lemma {:induction false} GrowNoDup(out: seq<CellId>, p: nat, waiting: seq<CellId>, pre: map<CellId, seq<CellId>>)
    requires NoDup(out) && NoDup(waiting) && forall k :: k in waiting ==> k !in out
    ensures var r := Grow(out, p, waiting, pre);
      && NoDup(r)
      && forall k :: k in r ==> k in out || k in waiting
    decreases |waiting|, |out| - p
  {
    if p < |out| {
      var hits, rest := GrowStep(out, p, waiting, pre);
      SelectSplit(waiting, Needs(pre, out[p]), NeedsNot(pre, out[p]));
      SelectNoDup(waiting, Needs(pre, out[p]));
      SelectNoDup(waiting, NeedsNot(pre, out[p]));
      assert forall k :: k in out ==> k !in hits;
      NoDupJoin(out, hits);
      forall k | k in rest ensures k !in out + hits {
        assert k in waiting && k !in hits;
      }
      GrowNoDup(out + hits, p + 1, rest, pre);
      var r := Grow(out + hits, p + 1, rest, pre);
      forall k | k in r ensures k in out || k in waiting {
        assert k in out + hits || k in rest;
      }
    }
  }

  /** From index n on, every id of out comes after one of its prerequisites. */
  predicate AfterPrereq(out: seq<CellId>, n: nat, pre: map<CellId, seq<CellId>>) {
    forall i :: n <= i < |out| ==> out[i] in pre && exists q :: 0 <= q < i && out[q] in pre[out[i]]
  }

  /** Appending cells that all need out[p] keeps every cell after a prerequisite. */
  lemma AfterPrereqAppend(out: seq<CellId>, n: nat, p: nat, hits: seq<CellId>, pre: map<CellId, seq<CellId>>)
    requires AfterPrereq(out, n, pre) && p < |out|
    requires forall h :: h in hits ==> h in pre && out[p] in pre[h]
    ensures AfterPrereq(out + hits, n, pre)
  {
    var out' := out + hits;
    forall i | n <= i < |out'| ensures out'[i] in pre && exists q :: 0 <= q < i && out'[q] in pre[out'[i]] {
      if i < |out| {
        assert out'[i] == out[i];
        var q :| 0 <= q < i && out[q] in pre[out[i]];
        assert out'[q] == out[q];
      } else {
        var h := hits[i - |out|];
        assert out'[i] == h && h in hits;
        assert 0 <= p < i && out'[p] == out[p];
      }
    }
  }

  /** Every cell phase 2 appends comes after one of its prerequisites. */
  lemma {:induction false} GrowAfterPrereq(out: seq<CellId>, p: nat, n: nat, waiting: seq<CellId>, pre: map<CellId, seq<CellId>>)
    requires AfterPrereq(out, n, pre)
    ensures AfterPrereq(Grow(out, p, waiting, pre), n, pre)
    decreases |waiting|, |out| - p
  {
    if p < |out| {
      var hits, rest := GrowStep(out, p, waiting, pre);
      SelectSplit(waiting, Needs(pre, out[p]), NeedsNot(pre, out[p]));
      AfterPrereqAppend(out, n, p, hits, pre);
      GrowAfterPrereq(out + hits, p + 1, n, rest, pre);
    }
  }

  /**
   * A waiting cell k that phase 2 never lists has no prerequisite in the
   * output at all, provided none of the first p entries (the ones already
   * processed) was one of its prerequisites.
   */
  lemma {:induction false} GrowClosed(out: seq<CellId>, p: nat, waiting: seq<CellId>, pre: map<CellId, seq<CellId>>, k: CellId)
    requires k in waiting && k in pre && k !in Grow(out, p, waiting, pre)
    requires forall q :: 0 <= q < p && q < |out| ==> out[q] !in pre[k]
    ensures forall q :: 0 <= q < |Grow(out, p, waiting, pre)| ==> Grow(out, p, waiting, pre)[q] !in pre[k]
    decreases |waiting|, |out| - p
  {
    if p < |out| {
      var hits, rest := GrowStep(out, p, waiting, pre);
      SelectSplit(waiting, Needs(pre, out[p]), NeedsNot(pre, out[p]));
      var r := Grow(out + hits, p + 1, rest, pre);
      GrowPrefix(out + hits, p + 1, rest, pre);
      assert k !in out + hits;
      assert k in rest;
      forall q | 0 <= q < p + 1 && q < |out + hits| ensures (out + hits)[q] !in pre[k] {
        assert (out + hits)[q] == out[q];
      }
      GrowClosed(out + hits, p + 1, rest, pre, k);
    }
  }

  /** The facts about phase 1 the dump lemmas start from. */
  lemma PhaseOne(s: Store)
    requires s.Valid()
    ensures var pre := PrereqsIn(s); var out := SortIds(Roots(s));
      && pre.Valid()
      && NoDup(out) && NoDup(Waiting(s))
      && |out| == |Roots(s)|
      && (forall x :: x in out <==> x in pre.m && pre.m[x] == [])
      && (forall x :: x in Waiting(s) <==> x in pre.m && pre.m[x] != [])
  {
    var pre := PrereqsIn(s);
    SelectNoDup(pre.keys, NoPrereqs(pre.m));
    SelectNoDup(pre.keys, SomePrereqs(pre.m));
    SortIdsSorted(Roots(s));
    forall x
      ensures x in Roots(s) <==> x in pre.m && pre.m[x] == []
      ensures x in Waiting(s) <==> x in pre.m && pre.m[x] != []
    {
      SelectIn(pre.keys, NoPrereqs(pre.m), x);
      SelectIn(pre.keys, SomePrereqs(pre.m), x);
    }
  }

  /** `dump()` lists only non-empty cells, and each at most once. */
  lemma DumpListsLiveOnce(s: Store)
    requires s.Valid()
    ensures NoDup(DumpOrder(s))
    ensures forall x :: x in DumpOrder(s) ==> x in s.m && !IsEmpty(s.m[x])
  {
    var pre := PrereqsIn(s);
    PhaseOne(s);
    GrowNoDup(SortIds(Roots(s)), 0, Waiting(s), pre.m);
    forall x | x in DumpOrder(s) ensures x in s.m && !IsEmpty(s.m[x]) {
      PrereqsMeaning(s, x, x);
    }
  }

  /**
   * The leading block of `dump()` is exactly the non-empty cells that no
   * non-empty cell has among its dependents, in lexicographic order.
   */
  lemma DumpLeadingBlock(s: Store)
    requires s.Valid()
    ensures var d := DumpOrder(s); var n := |Roots(s)|;
      && n <= |d| && Sorted(d[..n])
      && forall x :: x in d[..n] <==>
           x in s.m && !IsEmpty(s.m[x]) && forall c :: c in s.m && !IsEmpty(s.m[c]) ==> x !in s.m[c].dependents
  {
    var pre := PrereqsIn(s);
    var out := SortIds(Roots(s));
    var d := DumpOrder(s);
    PhaseOne(s);
    SortIdsSorted(Roots(s));
    GrowPrefix(out, 0, Waiting(s), pre.m);
    assert d[..|out|] == out;
    forall x ensures x in out <==>
      x in s.m && !IsEmpty(s.m[x]) && forall c :: c in s.m && !IsEmpty(s.m[c]) ==> x !in s.m[c].dependents
    {
      PrereqsMeaning(s, x, x);
      if x in pre.m && pre.m[x] != [] {
        PrereqsMeaning(s, x, pre.m[x][0]);
      }
      if x in pre.m && pre.m[x] == [] {
        forall c | c in s.m && !IsEmpty(s.m[c]) ensures x !in s.m[c].dependents {
          PrereqsMeaning(s, x, c);
        }
      }
    }
  }

  /** From position n on, every entry of d comes after a cell of s that has it among its dependents. */
  ghost predicate AfterDependency(s: Store, d: seq<CellId>, n: nat) {
    forall i :: n <= i < |d| ==> DependencyBefore(s, d, i)
  }

  /** Some entry of d before position i is a cell of s that has d[i] among its dependents. */
  ghost predicate DependencyBefore(s: Store, d: seq<CellId>, i: nat)
    requires i < |d|
  {
    exists q :: 0 <= q < i && d[q] in s.m && d[i] in s.m[d[q]].dependents
  }

  /** Every cell after the leading block comes after a non-empty cell that has it among its dependents. */
  lemma DumpAfterPrereq(s: Store)
    requires s.Valid()
    ensures AfterDependency(s, DumpOrder(s), |Roots(s)|)
  {
    SortIdsSorted(Roots(s));
    GrowAfterPrereq(SortIds(Roots(s)), 0, |Roots(s)|, Waiting(s), PrereqsIn(s).m);
    AfterPrereqMeaning(s, DumpOrder(s), |Roots(s)|);
  }

  /** What `AfterPrereq` says in terms of the cells themselves. */
  lemma AfterPrereqMeaning(s: Store, d: seq<CellId>, n: nat)
    requires s.Valid() && AfterPrereq(d, n, PrereqsIn(s).m)
    ensures AfterDependency(s, d, n)
  {
    var pre := PrereqsIn(s).m;
    forall i | n <= i < |d| ensures DependencyBefore(s, d, i) {
      var q :| 0 <= q < i && d[q] in pre[d[i]];
      PrereqsMeaning(s, d[i], d[q]);
      assert d[q] in s.m && d[i] in s.m[d[q]].dependents;
    }
  }

  /**
   * A non-empty cell that `dump()` leaves out is a dependent of no cell it
   * lists: phase 2 stops only when every listed cell has been looked at.
   */
  lemma DumpClosed(s: Store, k: CellId)
    requires s.Valid() && k in s.m && !IsEmpty(s.m[k]) && k !in DumpOrder(s)
    ensures forall q :: 0 <= q < |DumpOrder(s)| ==> DumpOrder(s)[q] in s.m && k !in s.m[DumpOrder(s)[q]].dependents
  {
    var pre := PrereqsIn(s);
    var out := SortIds(Roots(s));
    var d := DumpOrder(s);
    PhaseOne(s);
    DumpListsLiveOnce(s);
    GrowPrefix(out, 0, Waiting(s), pre.m);
    PrereqsMeaning(s, k, k);
    assert k in Waiting(s);
    GrowClosed(out, 0, Waiting(s), pre.m, k);
    forall q | 0 <= q < |d| ensures d[q] in s.m && k !in s.m[d[q]].dependents {
      PrereqsMeaning(s, k, d[q]);
    }
  }

  /**
   * The loops of `_makePrereqs` after the first i live cells: every entry
   * lists the cells among ids[..i] that have it as a dependent.
   */
  ghost predicate Collected(p: Prereqs, s: Store, ids: seq<CellId>, i: nat) {
    && i <= |ids| && p.Valid() && p.keys == ids
    && forall d :: d in p.m ==> p.m[d] == Select(ids[..i], PrereqOf(s, d))
  }

  /** ... and, inside the inner loop, ids[i] for the first j of its dependents as well. */
  ghost predicate Collecting(p: Prereqs, s: Store, ids: seq<CellId>, i: nat, j: nat) {
    && i < |ids| && ids[i] in s.m && j <= |s.m[ids[i]].dependents|
    && p.Valid() && p.keys == ids
    && forall d :: d in p.m ==>
         p.m[d] == Select(ids[..i], PrereqOf(s, d)) + (if d in s.m[ids[i]].dependents[..j] then [ids[i]] else [])
  }

  lemma CollectingStart(p: Prereqs, s: Store, ids: seq<CellId>, i: nat)
    requires Collected(p, s, ids, i) && i < |ids| && ids[i] in s.m
    ensures Collecting(p, s, ids, i, 0)
  {
  }

  /** One pass of the inner loop: `if (prereqs[d]) prereqs[d].push(cell.id)`. */
  lemma CollectingStep(p: Prereqs, s: Store, ids: seq<CellId>, i: nat, j: nat)
    requires Collecting(p, s, ids, i, j) && j < |s.m[ids[i]].dependents|
    requires NoDup(s.m[ids[i]].dependents)
    ensures var d := s.m[ids[i]].dependents[j];
      Collecting(if d in p.m then p.Put(d, p.m[d] + [ids[i]]) else p, s, ids, i, j + 1)
  {
    var deps := s.m[ids[i]].dependents;
    var x := deps[j];
    assert deps[..j + 1] == deps[..j] + [x];
    assert x !in deps[..j] by {
      forall q | 0 <= q < j ensures deps[q] != x {
        NoDupIndex(deps, q, j);
      }
    }
    var p' := if x in p.m then p.Put(x, p.m[x] + [ids[i]]) else p;
    if x in p.m {
      assert x in p.keys && p'.keys == p.keys;
    }
    forall d | d in p'.m
      ensures p'.m[d] == Select(ids[..i], PrereqOf(s, d)) + (if d in deps[..j + 1] then [ids[i]] else [])
    {
      if d == x {
        assert d in deps[..j + 1] && d !in deps[..j];
        assert p'.m[d] == p.m[d] + [ids[i]];
      } else {
        assert (d in deps[..j + 1]) == (d in deps[..j]);
        assert p'.m[d] == p.m[d];
      }
    }
  }

  lemma CollectingEnd(p: Prereqs, s: Store, ids: seq<CellId>, i: nat)
    requires i < |ids| && ids[i] in s.m && Collecting(p, s, ids, i, |s.m[ids[i]].dependents|)
    ensures Collected(p, s, ids, i + 1)
  {
    assert ids[..i + 1] == ids[..i] + [ids[i]];
    var deps := s.m[ids[i]].dependents;
    assert deps[..|deps|] == deps;
    forall d | d in p.m ensures p.m[d] == Select(ids[..i + 1], PrereqOf(s, d)) {
      SelectSnoc(ids[..i], ids[i], PrereqOf(s, d));
    }
  }

  /** When the loops are done the object is the prerequisites of the store. */
  lemma CollectedAll(p: Prereqs, s: Store)
    requires s.Valid() && Collected(p, s, Live(s), |Live(s)|)
    ensures p == PrereqsIn(s)
  {
    var ids := Live(s);
    assert ids[..|ids|] == ids;
    forall k ensures p.Get(k) == PrereqsIn(s).Get(k) {}
    SameDict(p, PrereqsIn(s));
  }

  /**
   * A store shaped like the one `eval` builds for a = 1, b = 2, d = b and
   * c = a + d, in that order (c1 = a1 + d1 with d1 = b1, say).
   */
  function Diamond(a: CellId, b: CellId, c: CellId, d: CellId): (s: Store)
    requires a != b && a != c && a != d && b != c && b != d && c != d
    ensures s.Valid()
  {
    assert NoDup([a, b, d, c]) by {
      assert [c][1..] == [] && NoDup([c]);
      assert [d, c][1..] == [c] && NoDup([d, c]);
      assert [b, d, c][1..] == [d, c] && NoDup([b, d, c]);
      assert [a, b, d, c][1..] == [b, d, c];
    }
    Dict([a, b, d, c],
         map[a := CellInfo(a, 1.0, Some(Num(1.0)), [c]),
             b := CellInfo(b, 2.0, Some(Num(2.0)), [d]),
             d := CellInfo(d, 2.0, Some(Ref(b)), [c]),
             c := CellInfo(c, 3.0, Some(App(Plus, [Ref(a), Ref(d)])), [])])
  }

  /** [k] when k passes the test, [] otherwise. */
  function PickOne(how: Pick, k: CellId): seq<CellId> {
    if Picks(how, k) then [k] else []
  }

  lemma SelectSnoc(ks: seq<CellId>, x: CellId, how: Pick)
    ensures Select(ks + [x], how) == Select(ks, how) + PickOne(how, x)
  {
    assert (ks + [x])[..|ks|] == ks;
  }

  /** Select over four listed ids, one test at a time. */
  lemma SelectFour(w: CellId, x: CellId, y: CellId, z: CellId, how: Pick)
    ensures Select([w, x, y, z], how) == PickOne(how, w) + PickOne(how, x) + PickOne(how, y) + PickOne(how, z)
  {
    SelectSnoc([], w, how);
    assert [] + [w] == [w];
    SelectSnoc([w], x, how);
    SelectSnoc([w, x], y, how);
    SelectSnoc([w, x, y], z, how);
    assert [w] + [x] == [w, x] && [w, x] + [y] == [w, x, y] && [w, x, y] + [z] == [w, x, y, z];
  }

  /** Select over two listed ids. */
  lemma SelectTwo(w: CellId, x: CellId, how: Pick)
    ensures Select([w, x], how) == PickOne(how, w) + PickOne(how, x)
  {
    SelectSnoc([], w, how);
    assert [] + [w] == [w];
    SelectSnoc([w], x, how);
    assert [w] + [x] == [w, x];
  }

  /** What the dump of the diamond depends on: its key order and each cell's dependents. */
  ghost predicate DiamondShaped(s: Store, a: CellId, b: CellId, c: CellId, d: CellId) {
    && a != b && a != c && a != d && b != c && b != d && c != d
    && s.Valid() && s.keys == [a, b, d, c]
    && !IsEmpty(s.m[a]) && !IsEmpty(s.m[b]) && !IsEmpty(s.m[c]) && !IsEmpty(s.m[d])
    && s.m[a].dependents == [c] && s.m[b].dependents == [d]
    && s.m[d].dependents == [c] && s.m[c].dependents == []
  }

  lemma DiamondIsShaped(a: CellId, b: CellId, c: CellId, d: CellId)
    requires a != b && a != c && a != d && b != c && b != d && c != d
    ensures DiamondShaped(Diamond(a, b, c, d), a, b, c, d)
  {
  }

  /** The diamond's cells are all non-empty, so all of them are live. */
  lemma DiamondLive(s: Store, a: CellId, b: CellId, c: CellId, d: CellId)
    requires DiamondShaped(s, a, b, c, d)
    ensures Live(s) == [a, b, d, c]
  {
    SelectFour(a, b, d, c, NonEmptyCell(s));
  }

  /** The prerequisites of x in the diamond, one test per cell. */
  lemma DiamondPrereqsOf(s: Store, a: CellId, b: CellId, c: CellId, d: CellId, x: CellId)
    requires DiamondShaped(s, a, b, c, d) && x in [a, b, d, c]
    ensures x in PrereqsIn(s).m
    ensures PrereqsIn(s).m[x] == PickOne(PrereqOf(s, x), a) + PickOne(PrereqOf(s, x), b) + PickOne(PrereqOf(s, x), d) + PickOne(PrereqOf(s, x), c)
  {
    DiamondLive(s, a, b, c, d);
    SelectFour(a, b, d, c, PrereqOf(s, x));
  }

  /** The prerequisites object of the diamond: d needs b, c needs a and d. */
  lemma JoinPicks(w: seq<CellId>, x: seq<CellId>, y: seq<CellId>, z: seq<CellId>)
    ensures w == [] && x == [] && y == [] && z == [] ==> w + x + y + z == []
    ensures |w| == 1 && x == [] && |y| == 1 && z == [] ==> w + x + y + z == [w[0], y[0]]
    ensures w == [] && |x| == 1 && y == [] && z == [] ==> w + x + y + z == [x[0]]
  {
  }

  lemma DiamondRoot(s: Store, a: CellId, b: CellId, c: CellId, d: CellId, x: CellId)
    requires DiamondShaped(s, a, b, c, d) && (x == a || x == b)
    ensures x in PrereqsIn(s).m && PrereqsIn(s).m[x] == []
  {
    DiamondPrereqsOf(s, a, b, c, d, x);
    var how := PrereqOf(s, x);
    assert PickOne(how, a) == [] && PickOne(how, b) == [] && PickOne(how, d) == [] && PickOne(how, c) == [];
    JoinPicks([], [], [], []);
  }

  lemma DiamondPrereqD(s: Store, a: CellId, b: CellId, c: CellId, d: CellId)
    requires DiamondShaped(s, a, b, c, d)
    ensures d in PrereqsIn(s).m && PrereqsIn(s).m[d] == [b]
  {
    DiamondPrereqsOf(s, a, b, c, d, d);
    var how := PrereqOf(s, d);
    assert PickOne(how, a) == [] && PickOne(how, b) == [b] && PickOne(how, d) == [] && PickOne(how, c) == [];
    JoinPicks([], [b], [], []);
  }

  lemma DiamondPrereqC(s: Store, a: CellId, b: CellId, c: CellId, d: CellId)
    requires DiamondShaped(s, a, b, c, d)
    ensures c in PrereqsIn(s).m && PrereqsIn(s).m[c] == [a, d]
  {
    DiamondPrereqsOf(s, a, b, c, d, c);
    var how := PrereqOf(s, c);
    assert PickOne(how, a) == [a] && PickOne(how, b) == [] && PickOne(how, d) == [d] && PickOne(how, c) == [];
    JoinPicks([a], [], [d], []);
  }

  lemma DiamondPrereqs(s: Store, a: CellId, b: CellId, c: CellId, d: CellId)
    requires DiamondShaped(s, a, b, c, d)
    ensures var pre := PrereqsIn(s);
      && pre.keys == [a, b, d, c] && pre.Valid()
      && pre.m[a] == [] && pre.m[b] == [] && pre.m[d] == [b] && pre.m[c] == [a, d]
  {
    DiamondLive(s, a, b, c, d);
    DiamondRoot(s, a, b, c, d, a);
    DiamondRoot(s, a, b, c, d, b);
    DiamondPrereqD(s, a, b, c, d);
    DiamondPrereqC(s, a, b, c, d);
  }

  /** Phase 1 on the diamond: a and b have no prerequisites, d and c wait. */
  lemma DiamondPhaseOne(pre: Prereqs, a: CellId, b: CellId, c: CellId, d: CellId)
    requires a != b && a != c && a != d && b != c && b != d && c != d
    requires pre.keys == [a, b, d, c] && pre.Valid()
    requires pre.m[a] == [] && pre.m[b] == [] && pre.m[d] == [b] && pre.m[c] == [a, d]
    ensures Select(pre.keys, NoPrereqs(pre.m)) == [a, b] && Select(pre.keys, SomePrereqs(pre.m)) == [d, c]
  {
    SelectFour(a, b, d, c, NoPrereqs(pre.m));
    SelectFour(a, b, d, c, SomePrereqs(pre.m));
  }

  /** One turn of phase 2, unfolded. */
  lemma GrowTurn(out: seq<CellId>, p: nat, waiting: seq<CellId>, pre: map<CellId, seq<CellId>>, hits: seq<CellId>, rest: seq<CellId>)
    requires p < |out|
    requires hits == Select(waiting, Needs(pre, out[p])) && rest == Select(waiting, NeedsNot(pre, out[p]))
    ensures Grow(out, p, waiting, pre) == Grow(out + hits, p + 1, rest, pre)
    ensures |hits| + |rest| <= |waiting|
  {
    SelectSplit(waiting, Needs(pre, out[p]), NeedsNot(pre, out[p]));
  }

  /** Phase 2 on the diamond: a's turn appends c, which needs it. */
  lemma DiamondTurnA(pre: map<CellId, seq<CellId>>, a: CellId, b: CellId, c: CellId, d: CellId)
    requires a != b && a != c && a != d && b != c && b != d && c != d
    requires c in pre && d in pre && pre[d] == [b] && pre[c] == [a, d]
    ensures Grow([a, b], 0, [d, c], pre) == Grow([a, b, c], 1, [d], pre)
  {
    assert Select([d, c], Needs(pre, a)) == [c] && Select([d, c], NeedsNot(pre, a)) == [d] by {
      SelectTwo(d, c, Needs(pre, a));
      SelectTwo(d, c, NeedsNot(pre, a));
    }
    GrowTurn([a, b], 0, [d, c], pre, [c], [d]);
    assert [a, b] + [c] == [a, b, c];
  }

  /** Phase 2 on the diamond: b's turn appends d. */
  lemma DiamondTurnB(pre: map<CellId, seq<CellId>>, a: CellId, b: CellId, c: CellId, d: CellId)
    requires d in pre && pre[d] == [b]
    ensures Grow([a, b, c], 1, [d], pre) == Grow([a, b, c, d], 2, [], pre)
  {
    assert Select([d], Needs(pre, b)) == [d] && Select([d], NeedsNot(pre, b)) == [] by {
      SelectSnoc([], d, Needs(pre, b));
      SelectSnoc([], d, NeedsNot(pre, b));
      assert [] + [d] == [d];
    }
    GrowTurn([a, b, c], 1, [d], pre, [d], []);
    assert [a, b, c] + [d] == [a, b, c, d];
  }

  /** Phase 2 on the diamond: nothing is left waiting for c or d. */
  lemma DiamondTurnsEnd(pre: map<CellId, seq<CellId>>, a: CellId, b: CellId, c: CellId, d: CellId)
    ensures Grow([a, b, c, d], 2, [], pre) == [a, b, c, d]
  {
    var out := [a, b, c, d];
    assert out + [] == out;
    GrowTurn(out, 2, [], pre, [], []);
    GrowTurn(out, 3, [], pre, [], []);
    assert Grow(out, 4, [], pre) == out;
  }

  /** Two ids in lexicographic order stay in that order. */
  lemma SortTwo(a: CellId, b: CellId)
    requires Below(a, b)
    ensures SortIds([a, b]) == [a, b]
  {
    assert [a, b][1..] == [b] && [b][1..] == [];
    assert SortIds([b]) == [b];
    assert !Below(b, a) by {
      if Below(b, a) {
        BelowTransitive(a, b, a);
        BelowIrreflexive(a);
      }
    }
    assert Insert(a, [b]) == [a, b];
  }

  /** The dump of any store shaped like the diamond. */
  lemma DiamondDump(s: Store, a: CellId, b: CellId, c: CellId, d: CellId)
    requires DiamondShaped(s, a, b, c, d) && Below(a, b)
    ensures DumpOrder(s) == [a, b, c, d]
  {
    DiamondPrereqs(s, a, b, c, d);
    var pre := PrereqsIn(s);
    DiamondPhaseOne(pre, a, b, c, d);
    SortTwo(a, b);
    DiamondTurnA(pre.m, a, b, c, d);
    DiamondTurnB(pre.m, a, b, c, d);
    DiamondTurnsEnd(pre.m, a, b, c, d);
  }

  /**
   * The order `dump()` documents (prerequisites first, by increasing
   * depth) is not the order it produces: c is listed as soon as its
   * prerequisite a has been, ahead of its other prerequisite d.
   */
  lemma DumpNotByDepth(a: CellId, b: CellId, c: CellId, d: CellId)
    requires a != b && a != c && a != d && b != c && b != d && c != d
    requires Below(a, b)
    ensures DumpOrder(Diamond(a, b, c, d)) == [a, b, c, d]
    ensures c in Diamond(a, b, c, d).m[d].dependents
  {
    DiamondIsShaped(a, b, c, d);
    DiamondDump(Diamond(a, b, c, d), a, b, c, d);
  }
}
