/** The open-addressing table behind the matrix: three parallel arrays of
    row keys, column keys and values (Matrix.h:21-23), the probe that
    `element` and `modify` run (Matrix.cpp:35-41, 50-56), the probe that the
    two rebuilds run (Matrix.cpp:94-98, 119-123) and the rebuild itself
    (Matrix.cpp:86-133), as functions over sequences. */
module HashTable {
  import opened Probing

  /** A logical cell (row, column). */
  type Key = (u32, u32)

  /** A snapshot of the three parallel arrays. */
  datatype Table = Table(rows: seq<u32>, cols: seq<u32>, elems: seq<int32>)

  ghost predicate WellSized(t: Table) {
    |t.rows| == |t.elems| && |t.cols| == |t.elems| && |t.elems| > 0
  }

  function Size(t: Table): nat {
    |t.elems|
  }

  function KeyAt(t: Table, q: nat): Key
    requires WellSized(t) && q < Size(t)
  {
    (t.rows[q], t.cols[q])
  }

  /** A real value: neither the empty marker nor the tombstone. */
  predicate IsLive(v: int32) {
    v != NULL_TELEM && v != DELETED_TELEM
  }

  predicate Live(t: Table, q: nat)
    requires q < Size(t)
  {
    IsLive(t.elems[q])
  }

  /** Live slot or tombstone. */
  predicate Occupied(t: Table, q: nat)
    requires q < Size(t)
  {
    t.elems[q] != NULL_TELEM
  }

  /** The condition on which the lookup loop stops, apart from the attempt
      bound: the slot's keys match, or the slot is empty. */
  predicate Hit(t: Table, k: Key, p: nat)
    requires WellSized(t) && p < Size(t)
  {
    KeyAt(t, p) == k || t.elems[p] == NULL_TELEM
  }

  /** The lookup loop from `position` = `pos` and `attempt` = `a`: the slot
      where it stops. */
  function Probe(t: Table, k: Key, pos: nat, a: nat): (p: nat)
    requires WellSized(t) && pos < Size(t) && a <= Size(t)
    ensures p < Size(t)
    decreases Size(t) - a
  {
    if Hit(t, k, pos) || a >= Size(t) then pos
    else Probe(t, k, Step(pos, a + 1, Size(t)), a + 1)
  }

  /** The slot on which `element(i, j)` and `modify(i, j, _)` settle: the
      lookup loop from the hash slot with no attempt made yet. */
  function Find(t: Table, k: Key): (p: nat)
    requires WellSized(t)
    ensures p < Size(t)
  {
    Probe(t, k, Hash(k.0, k.1, Size(t)), 0)
  }

  /** The value `element` returns once its bounds checks pass: the value of
      the slot the probe stops on, with a tombstone read as empty. */
  function Lookup(t: Table, k: Key): (v: int32)
    requires WellSized(t)
    ensures v != DELETED_TELEM
  {
    var v := t.elems[Find(t, k)];
    if v == DELETED_TELEM then NULL_TELEM else v
  }

  /** The probe of the rebuilds: it looks only for an empty slot. */
  function Place(t: Table, pos: nat, a: nat): (p: nat)
    requires WellSized(t) && pos < Size(t) && a <= Size(t)
    ensures p < Size(t)
    decreases Size(t) - a
  {
    if t.elems[pos] == NULL_TELEM || a >= Size(t) then pos
    else Place(t, Step(pos, a + 1, Size(t)), a + 1)
  }

  function PlacePos(t: Table, k: Key): (p: nat)
    requires WellSized(t)
    ensures p < Size(t)
  {
    Place(t, Hash(k.0, k.1, Size(t)), 0)
  }

  /** Slot `q` rewritten with keys `k` and value `v`. */
  function Write(t: Table, q: nat, k: Key, v: int32): (t': Table)
    requires WellSized(t) && q < Size(t)
    ensures WellSized(t') && Size(t') == Size(t)
  {
    Table(t.rows[q := k.0], t.cols[q := k.1], t.elems[q := v])
  }

  /** The representation invariant: the lookup for the keys of every live
      slot or tombstone stops on that very slot. It implies that no two
      occupied slots share a key (ReachUnique). */
  ghost predicate Reach(t: Table) {
    WellSized(t) &&
    forall q :: 0 <= q < Size(t) && Occupied(t, q) ==> Find(t, KeyAt(t, q)) == q
  }

  lemma ReachUnique(t: Table, p: nat, q: nat)
    requires Reach(t) && p < Size(t) && q < Size(t)
    requires Occupied(t, p) && Occupied(t, q) && KeyAt(t, p) == KeyAt(t, q)
    ensures p == q
  {
  }

  /** The entries of the live slots with index below `n`, each key mapped
      to its value; a later slot overrides an earlier one, which under Reach
      never happens (BelowHas). */
  ghost function ContentsBelow(t: Table, n: nat): map<Key, int32>
    requires WellSized(t) && n <= Size(t)
  {
    if n == 0 then map[]
    else if Live(t, n - 1) then ContentsBelow(t, n - 1)[KeyAt(t, n - 1) := t.elems[n - 1]]
    else ContentsBelow(t, n - 1)
  }

  /** The logical matrix: each key of a live slot, mapped to its value. */
  ghost function Contents(t: Table): map<Key, int32>
    requires WellSized(t)
  {
    ContentsBelow(t, Size(t))
  }

  lemma {:induction false} BelowHas(t: Table, n: nat, j: nat)
    requires Reach(t) && n <= Size(t) && j < n && Live(t, j)
    ensures KeyAt(t, j) in ContentsBelow(t, n) && ContentsBelow(t, n)[KeyAt(t, j)] == t.elems[j]
  {
    if j < n - 1 {
      BelowHas(t, n - 1, j);
    }
  }

  lemma {:induction false} BelowWitness(t: Table, n: nat, x: Key) returns (j: nat)
    requires WellSized(t) && n <= Size(t) && x in ContentsBelow(t, n)
    ensures j < n && Live(t, j) && KeyAt(t, j) == x && ContentsBelow(t, n)[x] == t.elems[j]
  {
    if Live(t, n - 1) && KeyAt(t, n - 1) == x {
      j := n - 1;
    } else {
      j := BelowWitness(t, n - 1, x);
    }
  }

  lemma {:induction false} NothingLive(t: Table, n: nat)
    requires WellSized(t) && n <= Size(t)
    requires forall j :: 0 <= j < n ==> !Live(t, j)
    ensures ContentsBelow(t, n) == map[]
  {
    if n > 0 {
      NothingLive(t, n - 1);
    }
  }

  lemma ContentsHas(t: Table, q: nat)
    requires Reach(t) && q < Size(t) && Live(t, q)
    ensures KeyAt(t, q) in Contents(t) && Contents(t)[KeyAt(t, q)] == t.elems[q]
  {
    BelowHas(t, Size(t), q);
  }

  /** The live slot behind an entry of the logical matrix. */
  lemma ContentsWitness(t: Table, x: Key) returns (q: nat)
    requires WellSized(t) && x in Contents(t)
    ensures q < Size(t) && Live(t, q) && KeyAt(t, q) == x && Contents(t)[x] == t.elems[q]
  {
    q := BelowWitness(t, Size(t), x);
  }

  /** The probe for `k` is exhausted on the live slot of another key. This is
      the only case in which a lookup reads another cell's value, and the
      only case in which `modify`'s own one-slot write touches a cell other
      than `k`; a rebuild that the write triggers can lose cells as well. */
  ghost predicate Misdirected(t: Table, k: Key)
    requires WellSized(t)
  {
    var p := Find(t, k);
    Live(t, p) && KeyAt(t, p) != k
  }

  /** A key of the logical matrix is held by the slot its lookup stops on. */
  lemma {:induction false} FindOwner(t: Table, k: Key)
    requires Reach(t) && k in Contents(t)
    ensures Live(t, Find(t, k)) && KeyAt(t, Find(t, k)) == k
    ensures t.elems[Find(t, k)] == Contents(t)[k]
  {
    var q := ContentsWitness(t, k);
    assert Find(t, KeyAt(t, q)) == q;
  }

  /** What a lookup returns: the cell's value when the cell is in the
      logical matrix, the empty value when it is not and the probe is not
      misdirected, and never the tombstone. */
  lemma {:induction false} LookupSpec(t: Table, k: Key)
    requires Reach(t)
    ensures k in Contents(t) ==> Lookup(t, k) == Contents(t)[k]
    ensures k !in Contents(t) && !Misdirected(t, k) ==> Lookup(t, k) == NULL_TELEM
    ensures Lookup(t, k) != DELETED_TELEM
  {
    if k in Contents(t) {
      FindOwner(t, k);
    } else if Live(t, Find(t, k)) && KeyAt(t, Find(t, k)) == k {
      ContentsHas(t, Find(t, k));
    }
  }

  /** Rewriting one slot `q` changes the stopping slot of a probe for `k` only
      if the rewrite makes `q` a stopping slot it was not or the reverse. */
  lemma {:induction false} ProbeAfterWrite(t: Table, t': Table, k: Key, q: nat, pos: nat, a: nat)
    requires WellSized(t) && WellSized(t') && Size(t') == Size(t) && q < Size(t)
    requires pos < Size(t) && a <= Size(t)
    requires forall p :: 0 <= p < Size(t) && p != q ==> Hit(t, k, p) == Hit(t', k, p)
    requires if Probe(t, k, pos, a) == q then Hit(t', k, q) || !Hit(t, k, q)
             else Hit(t, k, q) || !Hit(t', k, q)
    ensures Probe(t', k, pos, a) == Probe(t, k, pos, a)
    decreases Size(t) - a
  {
    if Hit(t, k, pos) || a >= Size(t) {
    } else if Hit(t', k, pos) {
    } else {
      ProbeAfterWrite(t, t', k, q, Step(pos, a + 1, Size(t)), a + 1);
    }
  }

  /** Writing a non-empty value with keys `k` into the slot that the lookup
      for `k` stops on keeps the representation invariant. This covers
      every write `modify` makes, the misdirected ones included. */
  lemma {:induction false} WriteKeepsReach(t: Table, k: Key, v: int32)
    requires Reach(t) && v != NULL_TELEM
    ensures Reach(Write(t, Find(t, k), k, v))
  {
    var q := Find(t, k);
    var t' := Write(t, q, k, v);
    forall p | 0 <= p < Size(t') && Occupied(t', p)
      ensures Find(t', KeyAt(t', p)) == p
    {
      var x := KeyAt(t', p);
      assert forall r :: 0 <= r < Size(t) && r != q ==> Hit(t, x, r) == Hit(t', x, r);
      if p == q {
        ProbeAfterWrite(t, t', x, q, Hash(x.0, x.1, Size(t)), 0);
      } else {
        assert Occupied(t, p) && KeyAt(t, p) == x;
        assert Find(t, x) == p;
        ProbeAfterWrite(t, t', x, q, Hash(x.0, x.1, Size(t)), 0);
      }
    }
  }

  /** The logical matrix after writing `v` with keys `k` into slot `q`. */
  ghost function AfterWrite(t: Table, q: nat, k: Key, v: int32): map<Key, int32>
    requires Reach(t) && q < Size(t)
  {
    var base := if Live(t, q) then Contents(t) - {KeyAt(t, q)} else Contents(t);
    if IsLive(v) then base[k := v] else base
  }

  lemma {:induction false} WriteContentsOut(t: Table, q: nat, k: Key, v: int32, x: Key)
    requires Reach(t) && q < Size(t) && v != NULL_TELEM
    requires Reach(Write(t, q, k, v))
    requires x in Contents(Write(t, q, k, v))
    ensures x in AfterWrite(t, q, k, v) && AfterWrite(t, q, k, v)[x] == Contents(Write(t, q, k, v))[x]
  {
    var t' := Write(t, q, k, v);
    var p := ContentsWitness(t', x);
    if p == q {
      assert x == k && IsLive(v) && Contents(t')[x] == v;
    } else {
      WriteContentsOther(t, q, k, v, p);
    }
  }

  lemma {:induction false} WriteContentsOther(t: Table, q: nat, k: Key, v: int32, p: nat)
    requires Reach(t) && q < Size(t) && v != NULL_TELEM
    requires Reach(Write(t, q, k, v))
    requires p < Size(t) && p != q && Live(t, p)
    ensures KeyAt(t, p) in AfterWrite(t, q, k, v) && AfterWrite(t, q, k, v)[KeyAt(t, p)] == t.elems[p]
  {
    var t' := Write(t, q, k, v);
    var x := KeyAt(t, p);
    ContentsHas(t, p);
    var base := if Live(t, q) then Contents(t) - {KeyAt(t, q)} else Contents(t);
    if Live(t, q) && KeyAt(t, q) == x {
      ReachUnique(t, p, q);
    }
    assert x in base && base[x] == t.elems[p];
    if IsLive(v) && k == x {
      assert KeyAt(t', p) == x && KeyAt(t', q) == x;
      ReachUnique(t', p, q);
    }
  }

  lemma {:induction false} WriteContentsIn(t: Table, q: nat, k: Key, v: int32, x: Key)
    requires Reach(t) && q < Size(t) && v != NULL_TELEM
    requires Reach(Write(t, q, k, v))
    requires x in AfterWrite(t, q, k, v)
    ensures x in Contents(Write(t, q, k, v))
  {
    var t' := Write(t, q, k, v);
    if IsLive(v) && x == k {
      ContentsHas(t', q);
    } else {
      var p := ContentsWitness(t, x);
      assert p != q;
      ContentsHas(t', p);
    }
  }

  /** How a one-slot write changes the logical matrix: the key the slot held
      while live leaves it, and `k` enters it with `v` when `v` is live. */
  lemma {:induction false} WriteContents(t: Table, q: nat, k: Key, v: int32)
    requires Reach(t) && q < Size(t) && v != NULL_TELEM
    requires Reach(Write(t, q, k, v))
    ensures Contents(Write(t, q, k, v)) == AfterWrite(t, q, k, v)
  {
    var c := Contents(Write(t, q, k, v));
    var want := AfterWrite(t, q, k, v);
    forall x | x in c
      ensures x in want && want[x] == c[x]
    {
      WriteContentsOut(t, q, k, v, x);
    }
    forall x | x in want
      ensures x in c
    {
      WriteContentsIn(t, q, k, v, x);
    }
  }

  // ---------------------------------------------------------------------
  // Rebuilds

  /** The freshly allocated arrays of `rehash` and `resizeAndRehash`: every
      key and every value `NULL_TELEM` (Matrix.cpp:87-89, 112-114). */
  function EmptyTable(ts: nat): (t: Table)
    requires ts > 0
    ensures WellSized(t) && Size(t) == ts
    ensures forall p :: 0 <= p < ts ==> !Occupied(t, p)
  {
    Table(seq(ts, _ => 0), seq(ts, _ => 0), seq(ts, _ => NULL_TELEM))
  }

  /** Re-seating one entry: its keys and value go to the slot the rebuild's
      probe stops on, and every other slot is left alone (Matrix.cpp:93-101). */
  function Reinsert(t: Table, k: Key, v: int32): (t': Table)
    requires WellSized(t)
    ensures WellSized(t') && Size(t') == Size(t)
  {
    Write(t, PlacePos(t, k), k, v)
  }

  /** The new table after the rebuild loop has visited old slots 0 .. n-1;
      it never holds a tombstone. */
  function RebuildUpTo(t: Table, ts: nat, n: nat): (r: Table)
    requires WellSized(t) && ts > 0 && n <= Size(t)
    ensures WellSized(r) && Size(r) == ts
    ensures forall p :: 0 <= p < ts ==> r.elems[p] != DELETED_TELEM
  {
    if n == 0 then EmptyTable(ts)
    else
      var prev := RebuildUpTo(t, ts, n - 1);
      if Live(t, n - 1) then Reinsert(prev, KeyAt(t, n - 1), t.elems[n - 1]) else prev
  }

  /** The table a rebuild into `ts` slots produces. */
  function Rebuild(t: Table, ts: nat): (r: Table)
    requires WellSized(t) && ts > 0
    ensures WellSized(r) && Size(r) == ts
    ensures forall p :: 0 <= p < ts ==> r.elems[p] != DELETED_TELEM
  {
    RebuildUpTo(t, ts, Size(t))
  }

  /** Every re-seated entry of the first n found an empty slot, so no entry
      was written over another one. */
  ghost predicate LosslessUpTo(t: Table, ts: nat, n: nat)
    requires WellSized(t) && ts > 0 && n <= Size(t)
  {
    n == 0 ||
    (LosslessUpTo(t, ts, n - 1) &&
     var prev := RebuildUpTo(t, ts, n - 1);
     (Live(t, n - 1) ==> prev.elems[PlacePos(prev, KeyAt(t, n - 1))] == NULL_TELEM))
  }

  ghost predicate Lossless(t: Table, ts: nat)
    requires WellSized(t) && ts > 0
  {
    LosslessUpTo(t, ts, Size(t))
  }

  /** Every occupied slot of `r` is live and is a copy of a live slot of `t`
      with index below `n`; `Find` in `t` names that slot. */
  ghost predicate DrawnFrom(r: Table, t: Table, n: nat)
    requires Reach(t) && WellSized(r)
  {
    forall p :: 0 <= p < Size(r) && Occupied(r, p) ==>
      Live(r, p) &&
      var j := Find(t, KeyAt(r, p));
      j < n && Live(t, j) && KeyAt(t, j) == KeyAt(r, p) && t.elems[j] == r.elems[p]
  }

  lemma DrawnWeaken(r: Table, t: Table, n: nat, m: nat)
    requires Reach(t) && WellSized(r) && n <= m && DrawnFrom(r, t, n)
    ensures DrawnFrom(r, t, m)
  {
  }

  /** The rebuild's probe and the lookup agree for a key that no occupied
      slot holds. */
  lemma {:induction false} PlaceIsProbe(t: Table, k: Key, pos: nat, a: nat)
    requires WellSized(t) && pos < Size(t) && a <= Size(t)
    requires forall p :: 0 <= p < Size(t) && Occupied(t, p) ==> KeyAt(t, p) != k
    ensures Place(t, pos, a) == Probe(t, k, pos, a)
    decreases Size(t) - a
  {
    if t.elems[pos] == NULL_TELEM || a >= Size(t) {
    } else {
      PlaceIsProbe(t, k, Step(pos, a + 1, Size(t)), a + 1);
    }
  }

  /** Before slot n-1 is re-seated no occupied slot of the new table holds its key. */
  lemma {:induction false} KeyNotYetPlaced(t: Table, r: Table, n: nat, p: nat)
    requires Reach(t) && 0 < n <= Size(t) && Live(t, n - 1)
    requires WellSized(r) && DrawnFrom(r, t, n - 1)
    requires p < Size(r) && Occupied(r, p)
    ensures KeyAt(r, p) != KeyAt(t, n - 1)
  {
    assert Find(t, KeyAt(t, n - 1)) == n - 1;
  }

  lemma {:induction false} ReinsertStep(t: Table, ts: nat, n: nat)
    requires Reach(t) && ts > 0 && 0 < n <= Size(t) && Live(t, n - 1)
    requires Reach(RebuildUpTo(t, ts, n - 1)) && DrawnFrom(RebuildUpTo(t, ts, n - 1), t, n - 1)
    ensures Reach(RebuildUpTo(t, ts, n)) && DrawnFrom(RebuildUpTo(t, ts, n), t, n)
  {
    var prev := RebuildUpTo(t, ts, n - 1);
    var k := KeyAt(t, n - 1);
    var v := t.elems[n - 1];
    forall p | 0 <= p < Size(prev) && Occupied(prev, p)
      ensures KeyAt(prev, p) != k
    {
      KeyNotYetPlaced(t, prev, n, p);
    }
    PlaceIsProbe(prev, k, Hash(k.0, k.1, ts), 0);
    WriteKeepsReach(prev, k, v);
    var q := PlacePos(prev, k);
    var r := RebuildUpTo(t, ts, n);
    assert r == Write(prev, q, k, v);
    assert Find(t, k) == n - 1;
    forall p | 0 <= p < Size(r) && Occupied(r, p)
      ensures Live(r, p) &&
              var j := Find(t, KeyAt(r, p));
              j < n && Live(t, j) && KeyAt(t, j) == KeyAt(r, p) && t.elems[j] == r.elems[p]
    {
      if p != q {
        assert KeyAt(r, p) == KeyAt(prev, p) && r.elems[p] == prev.elems[p];
        assert Occupied(prev, p);
      } else {
        assert KeyAt(r, p) == k && r.elems[p] == v;
      }
    }
  }

  lemma {:induction false} RebuildUpToFacts(t: Table, ts: nat, n: nat)
    requires Reach(t) && ts > 0 && n <= Size(t)
    ensures Reach(RebuildUpTo(t, ts, n))
    ensures DrawnFrom(RebuildUpTo(t, ts, n), t, n)
  {
    if n > 0 {
      RebuildUpToFacts(t, ts, n - 1);
      if Live(t, n - 1) {
        ReinsertStep(t, ts, n);
      } else {
        var prev := RebuildUpTo(t, ts, n - 1);
        assert RebuildUpTo(t, ts, n) == prev;
        DrawnWeaken(prev, t, n - 1, n);
      }
    }
  }

  /** A rebuild keeps the representation invariant, leaves no tombstone, and
      every entry it holds is an entry of the old logical matrix. */
  lemma {:induction false} RebuildSound(t: Table, ts: nat)
    requires Reach(t) && ts > 0
    ensures Reach(Rebuild(t, ts))
    ensures forall p :: 0 <= p < ts ==> Rebuild(t, ts).elems[p] != DELETED_TELEM
    ensures forall x :: x in Contents(Rebuild(t, ts)) ==>
              x in Contents(t) && Contents(t)[x] == Contents(Rebuild(t, ts))[x]
  {
    RebuildUpToFacts(t, ts, Size(t));
    var r := Rebuild(t, ts);
    forall x | x in Contents(r)
      ensures x in Contents(t) && Contents(t)[x] == Contents(r)[x]
    {
      var p := ContentsWitness(r, x);
      ContentsHas(t, Find(t, x));
    }
  }

  lemma {:induction false} RebuildUpToLossless(t: Table, ts: nat, n: nat)
    requires Reach(t) && ts > 0 && n <= Size(t)
    requires LosslessUpTo(t, ts, n)
    ensures Reach(RebuildUpTo(t, ts, n))
    ensures Contents(RebuildUpTo(t, ts, n)) == ContentsBelow(t, n)
  {
    RebuildUpToFacts(t, ts, n);
    if n == 0 {
      NothingLive(EmptyTable(ts), ts);
    } else {
      RebuildUpToLossless(t, ts, n - 1);
      RebuildUpToFacts(t, ts, n - 1);
      var prev := RebuildUpTo(t, ts, n - 1);
      if Live(t, n - 1) {
        var k := KeyAt(t, n - 1);
        var q := PlacePos(prev, k);
        WriteContents(prev, q, k, t.elems[n - 1]);
      }
    }
  }

  /** A lossless rebuild keeps exactly the live (row, column, value) entries. */
  lemma {:induction false} RebuildKeepsContents(t: Table, ts: nat)
    requires Reach(t) && ts > 0 && Lossless(t, ts)
    ensures Reach(Rebuild(t, ts))
    ensures Contents(Rebuild(t, ts)) == Contents(t)
  {
    RebuildUpToLossless(t, ts, Size(t));
    assert ContentsBelow(t, Size(t)) == Contents(t);
  }
}
