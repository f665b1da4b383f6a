/** The matrix's mutable state as a value: the table plus the two counters
    `element_count` and `number_of_deleted_elements` (Matrix.h:19-24), and
    what `modify` and `setMainDiagonal` do to it (Matrix.cpp:45-84, 135-141). */
module SparseStore {
  import opened Probing
  import opened HashTable

  datatype Store = Store(table: Table, count: nat, deleted: nat)

  /** What every operation keeps: the representation invariant, a
      power-of-two table of at least 4 slots, a live counter that bounds the
      number of live entries, and the two load bounds that the thresholds
      0.75 and 0.33 (Matrix.h:25-26) enforce after every `modify`. The
      ratio tests of Matrix.cpp:65 and 75 divide by a power of two, so they
      are exact and equal the integer comparisons below. */
  ghost predicate StoreValid(s: Store) {
    Reach(s.table) && PowerOfTwo(Size(s.table)) && Size(s.table) >= 4 &&
    s.count >= |Contents(s.table)| &&
    4 * s.count < 3 * Size(s.table) &&
    100 * s.deleted <= 33 * Size(s.table)
  }

  /** `new int[n]{-1}`, `new TElem[n]{NULL_TELEM}`: index 0 of the key arrays
      holds -1 and every other slot 0 (Matrix.cpp:11-13). */
  function InitialTable(ts: nat): (t: Table)
    requires ts > 0
    ensures WellSized(t) && Size(t) == ts
    ensures KeyAt(t, 0) == (MINUS_ONE_KEY, MINUS_ONE_KEY)
    ensures forall q :: 0 <= q < ts ==> !Occupied(t, q)
  {
    Table(seq(ts, q => if q == 0 then MINUS_ONE_KEY else 0),
          seq(ts, q => if q == 0 then MINUS_ONE_KEY else 0),
          seq(ts, _ => NULL_TELEM))
  }

  function InitialStore(ts: nat): (s: Store)
    requires ts > 0
    ensures Size(s.table) == ts && s.count == 0 && s.deleted == 0
  {
    Store(InitialTable(ts), 0, 0)
  }

  /** A fresh store is valid, holds no entry, and every cell reads empty. */
  lemma InitialStoreEmpty(ts: nat)
    requires PowerOfTwo(ts) && ts >= 4
    ensures StoreValid(InitialStore(ts))
    ensures Contents(InitialTable(ts)) == map[]
    ensures forall k: Key :: Lookup(InitialTable(ts), k) == NULL_TELEM
  {
    var t := InitialTable(ts);
    NothingLive(t, ts);
  }

  lemma {:induction false} SubsetCard<T>(a: set<T>, b: set<T>)
    requires a <= b
    ensures |a| <= |b|
    decreases |b|
  {
    if a != {} {
      var x :| x in a;
      SubsetCard(a - {x}, b - {x});
    }
  }

  lemma SubMapCard(a: map<Key, int32>, b: map<Key, int32>)
    requires forall x :: x in a ==> x in b
    ensures |a| <= |b|
  {
    SubsetCard(a.Keys, b.Keys);
  }

  /** `modify(i, j, e)` once the bounds checks have passed (Matrix.cpp:50-83):
      the new state and the returned value. The value is never the
      tombstone; writing a real value returns a real value; a delete that
      returns the empty value leaves the state as it was. */
  function StoreModify(s: Store, k: Key, e: int32): (r: (Store, int32))
    requires StoreValid(s) && e != DELETED_TELEM
    ensures r.1 != DELETED_TELEM
    ensures e == NULL_TELEM && r.1 == NULL_TELEM ==> r.0 == s
    ensures e != NULL_TELEM ==> IsLive(r.1)
  {
    var t := s.table;
    var q := Find(t, k);
    var cur := t.elems[q];
    if e == NULL_TELEM then
      if !IsLive(cur) then (s, NULL_TELEM)
      else
        ContentsHas(t, q);
        var t1 := Write(t, q, KeyAt(t, q), DELETED_TELEM);
        var d := s.deleted + 1;
        if 100 * d > 33 * Size(t) then (Store(Rebuild(t1, Size(t)), s.count - 1, 0), cur)
        else (Store(t1, s.count - 1, d), cur)
    else if !IsLive(cur) then
      var t1 := Write(t, q, k, e);
      var c := s.count + 1;
      // Matrix.cpp:74 tests the slot after line 72 overwrote it, so the
      // deleted counter never changes here.
      if 4 * c >= 3 * Size(t) then (Store(Rebuild(t1, 2 * Size(t)), c, 0), e)
      else (Store(t1, c, s.deleted), e)
    else
      (Store(Write(t, q, KeyAt(t, q), e), s.count, s.deleted), cur)
  }

  /** The rebuild that `modify` may trigger, if any, loses no entry. */
  ghost predicate RebuildsLossless(s: Store, k: Key, e: int32)
    requires StoreValid(s) && e != DELETED_TELEM
  {
    var t := s.table;
    var q := Find(t, k);
    if e == NULL_TELEM then
      IsLive(t.elems[q]) && 100 * (s.deleted + 1) > 33 * Size(t) ==>
        Lossless(Write(t, q, KeyAt(t, q), DELETED_TELEM), Size(t))
    else
      !IsLive(t.elems[q]) && 4 * (s.count + 1) >= 3 * Size(t) ==>
        Lossless(Write(t, q, k, e), 2 * Size(t))
  }

  /** Setting cell k of a logical matrix to e: `NULL_TELEM` removes it. */
  function SetCell(m: map<Key, int32>, k: Key, e: int32): map<Key, int32>
  {
    if e == NULL_TELEM then m - {k} else m[k := e]
  }

  /** What the logical matrix should be after `modify(k, e)`. */
  ghost function Intended(s: Store, k: Key, e: int32): map<Key, int32>
    requires Reach(s.table)
  {
    SetCell(Contents(s.table), k, e)
  }

  /** Deleting in place: the live slot the probe stops on becomes a
      tombstone, and its key leaves the logical matrix (Matrix.cpp:61-64). */
  lemma {:induction false} DeleteWrite(t: Table, k: Key)
    requires Reach(t) && Live(t, Find(t, k))
    ensures var q := Find(t, k);
            var t1 := Write(t, q, KeyAt(t, q), DELETED_TELEM);
            Reach(t1) && Contents(t1) == Contents(t) - {KeyAt(t, q)} &&
            |Contents(t1)| == |Contents(t)| - 1
  {
    var q := Find(t, k);
    ContentsHas(t, q);
    assert Find(t, KeyAt(t, q)) == q;
    WriteKeepsReach(t, KeyAt(t, q), DELETED_TELEM);
    WriteContents(t, q, KeyAt(t, q), DELETED_TELEM);
  }

  /** Overwriting in place: only the value of the live slot changes
      (Matrix.cpp:80-81). */
  lemma {:induction false} OverwriteWrite(t: Table, k: Key, e: int32)
    requires Reach(t) && Live(t, Find(t, k)) && IsLive(e)
    ensures var q := Find(t, k);
            var t1 := Write(t, q, KeyAt(t, q), e);
            Reach(t1) && Contents(t1) == Contents(t)[KeyAt(t, q) := e] &&
            |Contents(t1)| == |Contents(t)|
  {
    var q := Find(t, k);
    ContentsHas(t, q);
    assert Find(t, KeyAt(t, q)) == q;
    WriteKeepsReach(t, KeyAt(t, q), e);
    WriteContents(t, q, KeyAt(t, q), e);
    assert (Contents(t) - {KeyAt(t, q)})[KeyAt(t, q) := e] == Contents(t)[KeyAt(t, q) := e];
  }

  /** Inserting into an empty slot or a tombstone (Matrix.cpp:70-73). */
  lemma {:induction false} InsertWrite(t: Table, k: Key, e: int32)
    requires Reach(t) && !Live(t, Find(t, k)) && IsLive(e)
    ensures var t1 := Write(t, Find(t, k), k, e);
            Reach(t1) && Contents(t1) == Contents(t)[k := e] &&
            |Contents(t1)| <= |Contents(t)| + 1
  {
    WriteKeepsReach(t, k, e);
    WriteContents(t, Find(t, k), k, e);
  }

  /** When the probe is not misdirected, the live slot it stops on holds `k`,
      and a key of the logical matrix always has its slot there. */
  lemma {:induction false} SlotOfKey(t: Table, k: Key)
    requires Reach(t)
    ensures Live(t, Find(t, k)) && !Misdirected(t, k) ==> KeyAt(t, Find(t, k)) == k
    ensures Live(t, Find(t, k)) && !Misdirected(t, k) ==> k in Contents(t)
    ensures k in Contents(t) ==> Live(t, Find(t, k)) && KeyAt(t, Find(t, k)) == k
    ensures k in Contents(t) ==> t.elems[Find(t, k)] == Contents(t)[k]
  {
    if k in Contents(t) {
      FindOwner(t, k);
    }
    if Live(t, Find(t, k)) {
      ContentsHas(t, Find(t, k));
    }
  }

  /** `modify` keeps the store valid, and the table either keeps its size or
      doubles, the latter exactly when an insert reaches the load threshold. */
  lemma {:induction false} ModifyKeepsValid(s: Store, k: Key, e: int32)
    requires StoreValid(s) && e != DELETED_TELEM
    ensures StoreValid(StoreModify(s, k, e).0)
    ensures var s' := StoreModify(s, k, e).0;
            Size(s'.table) == Size(s.table) || Size(s'.table) == 2 * Size(s.table)
    ensures var s' := StoreModify(s, k, e).0;
            Size(s'.table) == 2 * Size(s.table) <==>
              e != NULL_TELEM && !Live(s.table, Find(s.table, k)) &&
              4 * (s.count + 1) >= 3 * Size(s.table)
  {
    var t := s.table;
    var q := Find(t, k);
    if e == NULL_TELEM && IsLive(t.elems[q]) {
      DeleteWrite(t, k);
      var t1 := Write(t, q, KeyAt(t, q), DELETED_TELEM);
      RebuildSound(t1, Size(t));
      SubMapCard(Contents(Rebuild(t1, Size(t))), Contents(t1));
    } else if e != NULL_TELEM && !IsLive(t.elems[q]) {
      InsertWrite(t, k, e);
      var t1 := Write(t, q, k, e);
      RebuildSound(t1, 2 * Size(t));
      SubMapCard(Contents(Rebuild(t1, 2 * Size(t))), Contents(t1));
      PowerOfTwoDouble(Size(t));
    } else if e != NULL_TELEM {
      OverwriteWrite(t, k, e);
    }
  }

  /** What `modify` returns: the cell's old value, or `e` itself when the
      cell held nothing (Matrix.h:89). A delete of an empty cell returns
      `NULL_TELEM`, which is `e`. */
  lemma {:induction false} ModifyReturns(s: Store, k: Key, e: int32)
    requires StoreValid(s) && e != DELETED_TELEM && !Misdirected(s.table, k)
    ensures StoreModify(s, k, e).1 ==
            if k in Contents(s.table) then Contents(s.table)[k] else e
  {
    SlotOfKey(s.table, k);
  }

  /** What `modify` does to the logical matrix. Whatever its probe does, no
      key other than `k` enters the matrix, and a delete leaves `k` out of
      it. When the probe is not misdirected, nothing is added or changed
      beyond the intended update, and exactly that update is made when no
      re-insertion of a triggered rebuild is lost. */
  lemma {:induction false} ModifyContents(s: Store, k: Key, e: int32)
    requires StoreValid(s) && e != DELETED_TELEM
    ensures StoreValid(StoreModify(s, k, e).0)
    ensures var c' := Contents(StoreModify(s, k, e).0.table);
            forall x :: x in c' ==> x == k || x in Contents(s.table)
    ensures e == NULL_TELEM ==> k !in Contents(StoreModify(s, k, e).0.table)
    ensures var c' := Contents(StoreModify(s, k, e).0.table);
            !Misdirected(s.table, k) ==>
              forall x :: x in c' ==> x in Intended(s, k, e) && Intended(s, k, e)[x] == c'[x]
    ensures !Misdirected(s.table, k) && RebuildsLossless(s, k, e) ==>
            Contents(StoreModify(s, k, e).0.table) == Intended(s, k, e)
  {
    ModifyKeepsValid(s, k, e);
    var t := s.table;
    var q := Find(t, k);
    SlotOfKey(t, k);
    if e == NULL_TELEM && !IsLive(t.elems[q]) {
      assert Contents(t) - {k} == Contents(t);
    } else if e == NULL_TELEM {
      DeleteWrite(t, k);
      var t1 := Write(t, q, KeyAt(t, q), DELETED_TELEM);
      RebuildSound(t1, Size(t));
      if Lossless(t1, Size(t)) {
        RebuildKeepsContents(t1, Size(t));
      }
    } else if !IsLive(t.elems[q]) {
      InsertWrite(t, k, e);
      var t1 := Write(t, q, k, e);
      RebuildSound(t1, 2 * Size(t));
      if Lossless(t1, 2 * Size(t)) {
        RebuildKeepsContents(t1, 2 * Size(t));
      }
    } else {
      OverwriteWrite(t, k, e);
      ContentsHas(t, q);
    }
  }

  /** The counters and the table size after `modify`. Overwriting a live
      cell changes neither counter nor the size; inserting adds one live
      entry and keeps the deleted counter, also when it reuses a tombstone;
      deleting a live cell moves one entry from live to deleted; deleting an
      empty cell changes nothing at all. */
  lemma {:induction false} ModifyCounters(s: Store, k: Key, e: int32)
    requires StoreValid(s) && e != DELETED_TELEM && !Misdirected(s.table, k)
    ensures var s' := StoreModify(s, k, e).0;
            var n := Size(s.table);
            var c := Contents(s.table);
            (e != NULL_TELEM && k in c ==>
               s'.count == s.count && s'.deleted == s.deleted && Size(s'.table) == n) &&
            (e != NULL_TELEM && k !in c ==>
               s'.count == s.count + 1 &&
               if 4 * (s.count + 1) >= 3 * n then Size(s'.table) == 2 * n && s'.deleted == 0
               else Size(s'.table) == n && s'.deleted == s.deleted) &&
            (e == NULL_TELEM && k in c ==>
               s'.count == s.count - 1 && Size(s'.table) == n &&
               s'.deleted == if 100 * (s.deleted + 1) > 33 * n then 0 else s.deleted + 1) &&
            (e == NULL_TELEM && k !in c ==> s' == s)
  {
    SlotOfKey(s.table, k);
  }

  /** Round trip: after `modify(k, e)` with a real value `e`, reading `k`
      returns `e`, unless a rebuild that the write triggered lost an entry.
      A misdirected write overwrites the slot its probe stopped on, and the
      read of `k` stops there again. */
  lemma {:induction false} ModifyThenLookup(s: Store, k: Key, e: int32)
    requires StoreValid(s) && IsLive(e) && RebuildsLossless(s, k, e)
    ensures StoreValid(StoreModify(s, k, e).0)
    ensures Lookup(StoreModify(s, k, e).0.table, k) == e
  {
    ModifyKeepsValid(s, k, e);
    var t := s.table;
    if Misdirected(t, k) {
      var q := Find(t, k);
      var t' := Write(t, q, KeyAt(t, q), e);
      assert forall p :: 0 <= p < Size(t) && p != q ==> Hit(t, k, p) == Hit(t', k, p);
      ProbeAfterWrite(t, t', k, q, Hash(k.0, k.1, Size(t)), 0);
    } else {
      ModifyContents(s, k, e);
      LookupSpec(StoreModify(s, k, e).0.table, k);
    }
  }

  /** Delete clears: after `modify(k, NULL_TELEM)` the cell is not in the
      logical matrix. A read of it returns `NULL_TELEM` whenever the delete
      triggered no compaction, and otherwise unless that read's own probe is
      misdirected. Without a compaction the tombstone keeps the keys of its
      slot, so the read of `k` stops where the delete did. */
  lemma {:induction false} DeleteThenLookup(s: Store, k: Key)
    requires StoreValid(s)
    ensures StoreValid(StoreModify(s, k, NULL_TELEM).0)
    ensures k !in Contents(StoreModify(s, k, NULL_TELEM).0.table)
    ensures 100 * (s.deleted + 1) <= 33 * Size(s.table) ==>
            Lookup(StoreModify(s, k, NULL_TELEM).0.table, k) == NULL_TELEM
    ensures !Misdirected(StoreModify(s, k, NULL_TELEM).0.table, k) ==>
            Lookup(StoreModify(s, k, NULL_TELEM).0.table, k) == NULL_TELEM
  {
    ModifyContents(s, k, NULL_TELEM);
    LookupSpec(StoreModify(s, k, NULL_TELEM).0.table, k);
    var t := s.table;
    var q := Find(t, k);
    if Live(t, q) && 100 * (s.deleted + 1) <= 33 * Size(t) {
      var t' := Write(t, q, KeyAt(t, q), DELETED_TELEM);
      assert forall p :: 0 <= p < Size(t) && p != q ==> Hit(t, k, p) == Hit(t', k, p);
      ProbeAfterWrite(t, t', k, q, Hash(k.0, k.1, Size(t)), 0);
    }
  }

  // ---------------------------------------------------------------------
  // setMainDiagonal

  /** The loop of `setMainDiagonal` from index c to n - 1 (Matrix.cpp:138-140). */
  function FillDiagonal(s: Store, c: nat, n: nat, e: int32): (r: Store)
    requires StoreValid(s) && e != DELETED_TELEM && c <= n <= TWO32
    ensures StoreValid(r)
    decreases n - c
  {
    if c == n then s
    else
      ModifyKeepsValid(s, (c, c), e);
      FillDiagonal(StoreModify(s, (c, c), e).0, c + 1, n, e)
  }

  /** Every call of the loop is undisturbed: no misdirected probe and no
      lossy rebuild. */
  ghost predicate DiagonalSettles(s: Store, c: nat, n: nat, e: int32)
    requires StoreValid(s) && e != DELETED_TELEM && c <= n <= TWO32
    decreases n - c
  {
    c == n ||
    (!Misdirected(s.table, (c, c)) && RebuildsLossless(s, (c, c), e) &&
     (ModifyKeepsValid(s, (c, c), e);
      DiagonalSettles(StoreModify(s, (c, c), e).0, c + 1, n, e)))
  }

  /** The intended effect of the loop on the logical matrix: cells (c, c) to
      (n - 1, n - 1) set to e one after the other. */
  function SetDiagonal(m: map<Key, int32>, c: nat, n: nat, e: int32): map<Key, int32>
    requires c <= n <= TWO32
    decreases n - c
  {
    if c == n then m else SetDiagonal(SetCell(m, (c, c), e), c + 1, n, e)
  }

  /** After setting the diagonal, the cells (d, d) with c <= d < n hold e (or
      nothing, for `NULL_TELEM`), and every other cell keeps its entry. */
  lemma {:induction false} SetDiagonalCells(m: map<Key, int32>, c: nat, n: nat, e: int32)
    requires c <= n <= TWO32
    ensures var m' := SetDiagonal(m, c, n, e);
            forall d: nat :: c <= d < n ==>
              if e == NULL_TELEM then (d, d) !in m' else (d, d) in m' && m'[(d, d)] == e
    ensures var m' := SetDiagonal(m, c, n, e);
            forall x: Key :: !(x.0 == x.1 && c <= x.0 < n) ==>
              (x in m' <==> x in m) && (x in m ==> m'[x] == m[x])
    decreases n - c
  {
    if c < n {
      SetDiagonalCells(SetCell(m, (c, c), e), c + 1, n, e);
    }
  }

  /** When every step settles, the loop leaves the logical matrix exactly as
      `SetDiagonal` says. */
  lemma {:induction false} FillDiagonalContents(s: Store, c: nat, n: nat, e: int32)
    requires StoreValid(s) && e != DELETED_TELEM && c <= n <= TWO32
    requires DiagonalSettles(s, c, n, e)
    ensures Contents(FillDiagonal(s, c, n, e).table) == SetDiagonal(Contents(s.table), c, n, e)
    decreases n - c
  {
    if c < n {
      ModifyContents(s, (c, c), e);
      var s1 := StoreModify(s, (c, c), e).0;
      FillDiagonalContents(s1, c + 1, n, e);
    }
  }
}
