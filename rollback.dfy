/**
 * The single-operation undo log: what `_updateCell` records and what `undo`
 * replays, and why replaying it restores the store an operation started from.
 */
module Rollback {
  import opened Wrappers
  import opened Ordered
  import opened Formula
  import opened Cells

  /**
   * Every change from (s0, u0) to (s, u) is covered by the log: entries
   * already in u0 are kept, each new entry is the snapshot of its cell in
   * s0, a cell without an entry is as it was in s0, and new cells were only
   * added after the keys of s0.
   */
  ghost predicate Covered(s0: Store, u0: UndoLog, s: Store, u: UndoLog) {
    && (forall k :: k in u0.m ==> k in u.m && u.m[k] == u0.m[k])
    && (forall k :: k in u.m && k !in u0.m ==> u.m[k] == s0.Get(k))
    && (forall k :: k !in u.m ==> s.Get(k) == s0.Get(k))
    && |s0.keys| <= |s.keys| && s.keys[..|s0.keys|] == s0.keys
  }

  lemma CoveredRefl(s: Store, u: UndoLog)
    ensures Covered(s, u, s, u)
  {
  }

  /** Coverage composes: the log of two steps covers both. */
  lemma CoveredTrans(s0: Store, u0: UndoLog, s1: Store, u1: UndoLog, s2: Store, u2: UndoLog)
    requires Covered(s0, u0, s1, u1) && Covered(s1, u1, s2, u2)
    ensures Covered(s0, u0, s2, u2)
  {
    assert s2.keys[..|s0.keys|] == s2.keys[..|s1.keys|][..|s0.keys|];
  }

  /** One step of `undo()`: put the snapshot back, or delete the cell when it was absent. */
  function Restore(s: Store, k: CellId, snap: Option<CellInfo>): (r: Store)
    ensures r.Get(k) == snap
    ensures forall j :: j != k ==> r.Get(j) == s.Get(j)
    ensures r.keys == if snap.Some? then Add(s.keys, k) else Without(s.keys, {k})
  {
    match snap
    case Some(c) => s.Put(k, c)
    case None => s.Remove(k)
  }

  /** The body of `undo()`: restore each logged snapshot, in log order. */
  function Replay(s: Store, u: UndoLog, ks: seq<CellId>): Store
    requires forall k :: k in ks ==> k in u.m
    decreases |ks|
  {
    if ks == [] then s
    else
      var k := ks[|ks| - 1];
      assert forall j :: j in ks <==> j == k || j in ks[..|ks| - 1];
      Restore(Replay(s, u, ks[..|ks| - 1]), k, u.m[k])
  }

  /** Replaying a single undo record restores that one cell. */
  lemma ReplaySingle(s: Store, u: UndoLog, ks: seq<CellId>, k: CellId)
    requires ks == [k] && k in u.m
    ensures Replay(s, u, ks) == Restore(s, k, u.m[k])
  {
    assert ks[..0] == [];
  }

  /** A replayed cell is its snapshot; any other cell is untouched. */
  lemma {:induction false} ReplayAt(s: Store, u: UndoLog, ks: seq<CellId>, k: CellId)
    requires forall j :: j in ks ==> j in u.m
    ensures Replay(s, u, ks).Get(k) == if k in ks then u.m[k] else s.Get(k)
    decreases |ks|
  {
    if ks != [] {
      assert k in ks <==> k == ks[|ks| - 1] || k in ks[..|ks| - 1];
      ReplayAt(s, u, ks[..|ks| - 1], k);
    }
  }

  /** Replay leaves the key order KeysAfter computes. */
  lemma {:induction false} ReplayKeyOrder(s: Store, u: UndoLog, ks: seq<CellId>)
    requires forall j :: j in ks ==> j in u.m
    ensures Replay(s, u, ks).keys == KeysAfter(s.keys, u, ks)
    decreases |ks|
  {
    if ks != [] {
      ReplayKeyOrder(s, u, ks[..|ks| - 1]);
    }
  }

  /** Replaying one more log entry is one more Restore. */
  lemma ReplayStep(s: Store, u: UndoLog, ks: seq<CellId>, j: nat)
    requires j < |ks| && forall x :: x in ks ==> x in u.m
    ensures Replay(s, u, ks[..j + 1]) == Restore(Replay(s, u, ks[..j]), ks[j], u.m[ks[j]])
  {
    assert ks[..j + 1][..j] == ks[..j];
  }

  /** Replaying a log of well-formed snapshots keeps a store well formed. */
  lemma {:induction false} ReplaySound(s: Store, u: UndoLog, ks: seq<CellId>)
    requires WellFormed(s) && WellFormedLog(u) && forall k :: k in ks ==> k in u.m
    ensures WellFormed(Replay(s, u, ks))
    decreases |ks|
  {
    if ks != [] {
      var prev := Replay(s, u, ks[..|ks| - 1]);
      var k := ks[|ks| - 1];
      ReplaySound(s, u, ks[..|ks| - 1]);
      match u.m[k]
      case Some(c) => PutWellFormed(prev, k, c);
      case None => RemoveWellFormed(prev, k);
    }
  }

  /** Replaying keeps the dictionary invariant. */
  lemma {:induction false} ReplayValid(s: Store, u: UndoLog, ks: seq<CellId>)
    requires s.Valid() && forall k :: k in ks ==> k in u.m
    ensures Replay(s, u, ks).Valid()
    decreases |ks|
  {
    if ks != [] {
      ReplayValid(s, u, ks[..|ks| - 1]);
    }
  }

  /** The keys of ks whose snapshot says the cell was absent. */
  ghost function AbsentIn(u: UndoLog, ks: seq<CellId>): set<CellId> {
    set k | k in ks && k in u.m && u.m[k].None?
  }

  lemma AbsentInStep(u: UndoLog, ks: seq<CellId>, j: nat)
    requires 0 < j <= |ks| && ks[j - 1] in u.m
    ensures AbsentIn(u, ks[..j]) == AbsentIn(u, ks[..j - 1]) + (if u.m[ks[j - 1]].None? then {ks[j - 1]} else {})
  {
    assert forall x :: x in ks[..j] <==> x in ks[..j - 1] || x == ks[j - 1];
  }

  /** One replay step on the key order, as plain sequence reasoning. */
  lemma KeysStep(base: seq<CellId>, delta: seq<CellId>, before: set<CellId>, k: CellId, absent: bool)
    requires absent <==> k !in base
    ensures (if absent then Without(base + Without(delta, before), {k}) else Add(base + Without(delta, before), k))
         == base + Without(delta, if absent then before + {k} else before)
  {
    if absent {
      WithoutAppend(base, Without(delta, before), {k});
      WithoutNothing(base, {k});
      WithoutWithout(delta, before, {k});
    }
  }

  /** The key order Replay leaves, computed on the keys alone. */
  ghost function KeysAfter(keys: seq<CellId>, u: UndoLog, ks: seq<CellId>): seq<CellId>
    requires forall k :: k in ks ==> k in u.m
    decreases |ks|
  {
    if ks == [] then keys
    else
      var k := ks[|ks| - 1];
      var prev := KeysAfter(keys, u, ks[..|ks| - 1]);
      if u.m[k].None? then Without(prev, {k}) else Add(prev, k)
  }

  lemma KeysAfterUnfold(keys: seq<CellId>, u: UndoLog, ks: seq<CellId>)
    requires ks != [] && forall k :: k in ks ==> k in u.m
    ensures var prev := KeysAfter(keys, u, ks[..|ks| - 1]);
      KeysAfter(keys, u, ks) == if u.m[ks[|ks| - 1]].None? then Without(prev, {ks[|ks| - 1]}) else Add(prev, ks[|ks| - 1])
  {
  }

  /** The key order after replaying a prefix of the log: the cells logged as absent are gone. */
  lemma {:induction false} ReplayKeys(base: seq<CellId>, delta: seq<CellId>, u: UndoLog, ks: seq<CellId>)
    requires forall k :: k in ks ==> k in u.m && (u.m[k].None? <==> k !in base)
    ensures KeysAfter(base + delta, u, ks) == base + Without(delta, AbsentIn(u, ks))
    decreases |ks|
  {
    if ks == [] {
      assert AbsentIn(u, ks) == {};
      WithoutNothing(delta, {});
    } else {
      var pre := ks[..|ks| - 1];
      var k := ks[|ks| - 1];
      var prev := KeysAfter(base + delta, u, pre);
      ReplayKeys(base, delta, u, pre);
      assert prev == base + Without(delta, AbsentIn(u, pre));
      AbsentInStep(u, ks, |ks|);
      assert ks[..|ks|] == ks;
      assert AbsentIn(u, ks) == if u.m[k].None? then AbsentIn(u, pre) + {k} else AbsentIn(u, pre);
      KeysStep(base, delta, AbsentIn(u, pre), k, u.m[k].None?);
      KeysAfterUnfold(base + delta, u, ks);
    }
  }

  /**
   * After a public operation whose every change went through the log,
   * replaying the log gives back exactly the store the operation started
   * from, key order included.
   */
  lemma UndoRestores(s0: Store, s: Store, u: UndoLog)
    requires s0.Valid() && s.Valid() && u.Valid()
    requires Covered(s0, EmptyDict(), s, u)
    ensures Replay(s, u, u.keys) == s0
  {
    var r := Replay(s, u, u.keys);
    LogMatchesStart(s0, s, u);
    NewKeysLogged(s0, s, u);
    UndoKeys(s0.keys, s, u);
    forall k ensures r.Get(k) == s0.Get(k) {
      ReplayAt(s, u, u.keys, k);
      if k !in u.keys {
        assert k !in u.m;
      }
    }
    SameDict(r, s0);
  }

  /** Replaying the whole log restores the key order. */
  lemma UndoKeys(s0keys: seq<CellId>, s: Store, u: UndoLog)
    requires forall k :: k in u.keys ==> k in u.m && (u.m[k].None? <==> k !in s0keys)
    requires |s0keys| <= |s.keys| && s.keys[..|s0keys|] == s0keys
    requires forall k :: k in s.keys[|s0keys|..] ==> k in AbsentIn(u, u.keys)
    ensures Replay(s, u, u.keys).keys == s0keys
  {
    var delta := s.keys[|s0keys|..];
    assert s.keys == s0keys + delta;
    ReplayKeyOrder(s, u, u.keys);
    ReplayKeys(s0keys, delta, u, u.keys);
    WithoutAll(delta, AbsentIn(u, u.keys));
  }

  /** A logged cell was absent exactly when it is not among the starting keys. */
  lemma LogMatchesStart(s0: Store, s: Store, u: UndoLog)
    requires s0.Valid() && u.Valid()
    requires Covered(s0, EmptyDict(), s, u)
    ensures forall k :: k in u.keys ==> k in u.m && (u.m[k].None? <==> k !in s0.keys)
  {
    forall k | k in u.keys ensures k in u.m && (u.m[k].None? <==> k !in s0.keys) {
      assert u.m[k] == s0.Get(k);
    }
  }

  /** A cell the operation created was logged as absent. */
  lemma NewKeysLogged(s0: Store, s: Store, u: UndoLog)
    requires s0.Valid() && s.Valid() && u.Valid()
    requires Covered(s0, EmptyDict(), s, u)
    ensures forall k :: k in s.keys[|s0.keys|..] ==> k in AbsentIn(u, u.keys)
  {
    var delta := s.keys[|s0.keys|..];
    assert s.keys == s0.keys + delta;
    NoDupDisjoint(s0.keys, delta);
    forall k | k in delta ensures k in AbsentIn(u, u.keys) {
      assert k in s.keys;
      assert s.Get(k) != s0.Get(k);
      assert k in u.m;
    }
  }
}
