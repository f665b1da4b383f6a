/** Concrete runs of `modify` on a 4 x 4 matrix (table size 4) that show two
    behaviours of the code as written: an exhausted probe that writes over
    another cell, and a deleted counter that outlives its tombstone. */
module Scenarios {
  import opened Probing
  import opened HashTable
  import opened SparseStore

  /** A sequence of `modify` calls, each within the bounds. */
  function Run(s: Store, calls: seq<(Key, int32)>): (r: Store)
    requires StoreValid(s)
    requires forall n :: 0 <= n < |calls| ==> calls[n].1 != DELETED_TELEM
    ensures StoreValid(r)
    ensures Size(r.table) >= Size(s.table)
    decreases |calls|
  {
    if calls == [] then s
    else
      ModifyKeepsValid(s, calls[0].0, calls[0].1);
      Run(StoreModify(s, calls[0].0, calls[0].1).0, calls[1..])
  }

  /** On four slots the probe from slot 0 visits 0, 0, 3, 0, 2 and never
      slot 1, so it covers three of the four slots. */
  lemma ProbeSkipsSlot()
    ensures Step(0, 1, 4) == 0 && Step(0, 2, 4) == 3 && Step(3, 3, 4) == 0 &&
            Step(0, 4, 4) == 2
  {
    assert 1 * 1 % TWO32 == 1 && 2 * 2 % TWO32 == 4;
    assert 3 * 3 % TWO32 == 9 && 4 * 4 % TWO32 == 16;
  }

  // The states of the runs below, slot by slot.
  function T0(): Table { Table([MINUS_ONE_KEY, 0, 0, 0], [MINUS_ONE_KEY, 0, 0, 0], [0, 0, 0, 0]) }
  function T1(): Table { Table([1, 0, 0, 0], [1, 0, 0, 0], [5, 0, 0, 0]) }
  function T2(): Table { Table([1, 0, 0, 0], [1, 0, 0, 0], [DELETED_TELEM, 0, 0, 0]) }
  function T3(): Table { Table([1, 0, 0, 0], [1, 0, 1, 0], [DELETED_TELEM, 0, 5, 0]) }
  function T4(): Table { Table([1, 0, 0, 2], [1, 0, 1, 3], [DELETED_TELEM, 0, 5, 6]) }
  function T5(): Table { Table([1, 0, 0, 2], [1, 0, 1, 3], [DELETED_TELEM, 0, 7, 6]) }

  /** Facts about the concrete tables: where each probe stops and what each
      slot write produces. */
  lemma TableFacts()
    ensures InitialStore(4) == Store(T0(), 0, 0)
    ensures Find(T0(), (1, 1)) == 0 && Write(T0(), 0, (1, 1), 5) == T1()
    ensures Find(T1(), (1, 1)) == 0 && KeyAt(T1(), 0) == (1, 1) && T1().elems[0] == 5
    ensures Write(T1(), 0, (1, 1), DELETED_TELEM) == T2()
    ensures Find(T2(), (1, 1)) == 0 && Write(T2(), 0, (1, 1), 5) == T1()
    ensures Find(T2(), (0, 1)) == 2 && Write(T2(), 2, (0, 1), 5) == T3()
    ensures Find(T3(), (2, 3)) == 3 && Write(T3(), 3, (2, 3), 6) == T4()
    ensures KeyAt(T4(), 2) == (0, 1) && T4().elems[2] == 5
    ensures Write(T4(), 2, (0, 1), 7) == T5()
  {
    assert Hash(1, 1, 4) == 0 && Hash(0, 1, 4) == 2 && Hash(2, 3, 4) == 3;
  }

  /** One insert into an empty slot, below the load threshold. */
  lemma {:induction false} InsertStep(s: Store, k: Key, e: int32, q: nat, t': Table)
    requires StoreValid(s) && IsLive(e) && q < Size(s.table) && Find(s.table, k) == q
    requires !IsLive(s.table.elems[q]) && 4 * (s.count + 1) < 3 * Size(s.table)
    requires t' == Write(s.table, q, k, e)
    ensures StoreValid(Store(t', s.count + 1, s.deleted))
    ensures StoreModify(s, k, e).0 == Store(t', s.count + 1, s.deleted)
  {
    ModifyKeepsValid(s, k, e);
  }

  /** One delete of a live slot, below the tombstone threshold. */
  lemma {:induction false} DeleteStep(s: Store, k: Key, q: nat, t': Table)
    requires StoreValid(s) && q < Size(s.table) && Find(s.table, k) == q
    requires IsLive(s.table.elems[q]) && 100 * (s.deleted + 1) <= 33 * Size(s.table)
    requires t' == Write(s.table, q, KeyAt(s.table, q), DELETED_TELEM) && s.count > 0
    ensures StoreValid(Store(t', s.count - 1, s.deleted + 1))
    ensures StoreModify(s, k, NULL_TELEM).0 == Store(t', s.count - 1, s.deleted + 1)
  {
    ModifyKeepsValid(s, k, NULL_TELEM);
  }

  /** One overwrite of the live slot the probe stops on. */
  lemma {:induction false} OverwriteStep(s: Store, k: Key, e: int32, q: nat, t': Table)
    requires StoreValid(s) && IsLive(e) && q < Size(s.table) && Find(s.table, k) == q
    requires IsLive(s.table.elems[q]) && t' == Write(s.table, q, KeyAt(s.table, q), e)
    ensures StoreModify(s, k, e) == (Store(t', s.count, s.deleted), s.table.elems[q])
  {
  }

  // The states (and the call list of RunToT4) come in as parameters pinned by
  // `requires`, which keeps the solver from unfolding StoreValid and Rebuild
  // on literal tables.

  /** The first two calls of both runs: modify(1,1,5) puts (1,1) into the
      empty slot 0, whose keys are -1; modify(1,1,0) leaves a tombstone
      there. */
  lemma {:induction false} InsertThenDelete(s0: Store, s1: Store, s2: Store)
    requires s0 == InitialStore(4) && s1 == Store(T1(), 1, 0) && s2 == Store(T2(), 0, 1)
    ensures StoreValid(s0) && StoreValid(s1) && StoreValid(s2)
    ensures StoreModify(s0, (1, 1), 5).0 == s1 && StoreModify(s1, (1, 1), 0).0 == s2
  {
    InitialStoreEmpty(4);
    TableFacts();
    InsertStep(s0, (1, 1), 5, 0, T1());
    DeleteStep(s1, (1, 1), 0, T2());
  }

  /** The four calls that set up the misdirected overwrite: modify(0,1,5) and
      modify(2,3,6) go to the empty slots 2 and 3. */
  lemma {:induction false} RunToT4(s0: Store, s2: Store, s3: Store, s4: Store,
                                   calls: seq<(Key, int32)>)
    requires s0 == InitialStore(4) && s2 == Store(T2(), 0, 1)
    requires s3 == Store(T3(), 1, 1) && s4 == Store(T4(), 2, 1)
    requires calls == [((1, 1), 5), ((1, 1), 0), ((0, 1), 5), ((2, 3), 6)]
    ensures StoreValid(s0) && StoreValid(s4)
    ensures forall n :: 0 <= n < |calls| ==> calls[n].1 != DELETED_TELEM
    ensures Run(s0, calls) == s4
  {
    var s1 := Store(T1(), 1, 0);
    InsertThenDelete(s0, s1, s2);
    TableFacts();
    InsertStep(s2, (0, 1), 5, 2, T3());
    InsertStep(s3, (2, 3), 6, 3, T4());
    assert Run(s4, calls[4..]) == s4;
    assert Run(s3, calls[3..]) == s4;
    assert Run(s2, calls[2..]) == s4;
    assert Run(s1, calls[1..]) == s4;
  }

  /** The probe of (0,0) hashes to slot 0, a tombstone of another key, passes
      slot 3, held by (2,3), and runs out on slot 2. */
  lemma {:induction false} ProbeRunsOut(t: Table)
    requires t == T4() || t == T5()
    ensures Find(t, (0, 0)) == 2
  {
    ProbeSkipsSlot();
    assert Hash(0, 0, 4) == 0;
    assert Probe(t, (0, 0), 2, 4) == 2;
    assert Probe(t, (0, 0), 0, 3) == 2;
    assert Probe(t, (0, 0), 3, 2) == 2;
    assert Probe(t, (0, 0), 0, 1) == 2;
  }

  /** The logical matrix of a four-slot table with a tombstone in slot 0, an
      empty slot 1 and live slots 2 and 3. */
  lemma {:induction false} LiveCells(t: Table)
    requires |t.rows| == 4 && |t.cols| == 4 && |t.elems| == 4
    requires t.elems[0] == DELETED_TELEM && t.elems[1] == NULL_TELEM
    requires IsLive(t.elems[2]) && IsLive(t.elems[3])
    ensures Contents(t) == map[KeyAt(t, 2) := t.elems[2], KeyAt(t, 3) := t.elems[3]]
  {
    assert ContentsBelow(t, 1) == map[];
    assert ContentsBelow(t, 2) == map[];
    assert ContentsBelow(t, 3) == map[KeyAt(t, 2) := t.elems[2]];
  }

  /** The misdirected overwrite. After modify(1,1,5), modify(1,1,0),
      modify(0,1,5), modify(2,3,6), the probe of (0,0) runs out on the slot
      of (0,1). Then modify(0,0,7) returns 5, the value of (0,1), writes 7
      into (0,1) and leaves (0,0) out of the matrix; element reads 7 for
      (0,0) as well. */
  lemma {:induction false} ExhaustedProbeOverwrites()
    ensures var s := Run(InitialStore(4), [((1, 1), 5), ((1, 1), 0), ((0, 1), 5), ((2, 3), 6)]);
            Contents(s.table) == map[(0, 1) := 5, (2, 3) := 6] &&
            Misdirected(s.table, (0, 0)) &&
            StoreModify(s, (0, 0), 7).1 == 5 &&
            Contents(StoreModify(s, (0, 0), 7).0.table) == map[(0, 1) := 7, (2, 3) := 6] &&
            Lookup(StoreModify(s, (0, 0), 7).0.table, (0, 0)) == 7
  {
    var s4 := Store(T4(), 2, 1);
    RunToT4(InitialStore(4), Store(T2(), 0, 1), Store(T3(), 1, 1), s4,
            [((1, 1), 5), ((1, 1), 0), ((0, 1), 5), ((2, 3), 6)]);
    TableFacts();
    ProbeRunsOut(T4());
    ProbeRunsOut(T5());
    OverwriteStep(s4, (0, 0), 7, 2, T5());
    LiveCells(T4());
    LiveCells(T5());
  }

  /** The deleted counter after a tombstone is reused: modify(1,1,5),
      modify(1,1,0), modify(1,1,5) puts (1,1) back into the tombstone it left,
      so no tombstone remains, yet the counter still reads 1. */
  lemma {:induction false} ReusedTombstoneStaysCounted()
    ensures var s := Run(InitialStore(4), [((1, 1), 5), ((1, 1), 0), ((1, 1), 5)]);
            s.deleted == 1 && DELETED_TELEM !in s.table.elems &&
            Contents(s.table) == map[(1, 1) := 5]
  {
    var s0 := InitialStore(4);
    var s1 := Store(T1(), 1, 0);
    var s2 := Store(T2(), 0, 1);
    var s3 := Store(T1(), 1, 1);
    InsertThenDelete(s0, s1, s2);
    TableFacts();
    InsertStep(s2, (1, 1), 5, 0, T1());
    var calls: seq<(Key, int32)> := [((1, 1), 5), ((1, 1), 0), ((1, 1), 5)];
    assert Run(s3, calls[3..]) == s3;
    assert Run(s2, calls[2..]) == s3;
    assert Run(s1, calls[1..]) == s3;
    assert ContentsBelow(T1(), 1) == map[(1, 1) := 5];
    assert ContentsBelow(T1(), 3) == map[(1, 1) := 5];
  }
}
