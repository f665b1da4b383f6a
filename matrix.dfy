/** The `Matrix` class (Matrix.h:14-97, Matrix.cpp): three heap arrays that
    every operation updates in place or replaces, two counters, and the
    dimensions. Each method is proved against the value-level model in
    SparseStore and HashTable. */
module SparseMatrix {
  import opened Probing
  import opened HashTable
  import opened SparseStore

  /** The `std::runtime_error`s the class throws. */
  datatype Error = InvalidDimension | InvalidRow | InvalidCol | NotSquare

  datatype Result<T> = Ok(value: T) | Err(error: Error)

  /** The three arrays read as a table. */
  ghost function View(rs: array<u32>, cs: array<u32>, es: array<int32>): Table
    reads rs, cs, es
  {
    Table(rs[..], cs[..], es[..])
  }

  /** The three arrays are distinct and share one positive length. */
  ghost predicate Parallel(rs: array<u32>, cs: array<u32>, es: array<int32>, ts: nat)
  {
    rs != cs && rs.Length == ts && cs.Length == ts && es.Length == ts && ts > 0
  }

  /** One entry re-seated by a rebuild: the probe that looks only for an
      empty slot, then the three writes (Matrix.cpp:93-101, 118-126). */
  method Reseat(rs: array<u32>, cs: array<u32>, es: array<int32>, k: Key, v: int32)
    requires Parallel(rs, cs, es, es.Length)
    modifies rs, cs, es
    ensures View(rs, cs, es) == Reinsert(old(View(rs, cs, es)), k, v)
  {
    ghost var t := View(rs, cs, es);
    var ts := es.Length;
    var attempt: nat := 0;
    var position: nat := Hash(k.0, k.1, ts);
    while es[position] != NULL_TELEM && attempt < ts
      invariant position < ts && attempt <= ts
      invariant Place(t, position, attempt) == PlacePos(t, k)
      decreases ts - attempt
    {
      attempt := attempt + 1;
      position := Step(position, attempt, ts);
    }
    es[position] := v;
    rs[position] := k.0;
    cs[position] := k.1;
    assert View(rs, cs, es) == Write(t, position, k, v);
  }

  /** The loop shared by `rehash` and `resizeAndRehash`: fresh arrays of `ts`
      slots, all zero, into which every live slot of the old arrays is
      re-seated in index order. */
  method RebuildInto(rs: array<u32>, cs: array<u32>, es: array<int32>, ts: nat)
    returns (nr: array<u32>, nc: array<u32>, ne: array<int32>)
    requires Parallel(rs, cs, es, es.Length) && ts > 0
    ensures fresh(nr) && fresh(nc) && fresh(ne) && Parallel(nr, nc, ne, ts)
    ensures View(nr, nc, ne) == Rebuild(View(rs, cs, es), ts)
  {
    ghost var t := View(rs, cs, es);
    nr := new u32[ts](_ => 0);
    nc := new u32[ts](_ => 0);
    ne := new int32[ts](_ => NULL_TELEM);
    assert View(nr, nc, ne) == EmptyTable(ts);
    for q := 0 to es.Length
      invariant View(nr, nc, ne) == RebuildUpTo(t, ts, q)
    {
      if es[q] != NULL_TELEM && es[q] != DELETED_TELEM {
        Reseat(nr, nc, ne, (rs[q], cs[q]), es[q]);
      }
    }
  }

  class Matrix {
    const rowCount: u32
    const columnCount: u32
    var tableSize: nat
    var rows: array<u32>
    var cols: array<u32>
    var elems: array<int32>
    var elementCount: nat
    var deletedCount: nat

    /** The state as a value. */
    ghost function Abs(): Store
      reads this, rows, cols, elems
    {
      Store(View(rows, cols, elems), elementCount, deletedCount)
    }

    /** The three arrays have the table size and are distinct. */
    ghost predicate Sized()
      reads this
    {
      Parallel(rows, cols, elems, tableSize)
    }

    /** The class invariant: the dimensions the constructor accepted, a table
        at least as large as either dimension, and a valid store. */
    ghost predicate Valid()
      reads this, rows, cols, elems
    {
      Sized() &&
      0 < rowCount <= 0x8000_0000 && 0 < columnCount <= 0x8000_0000 &&
      tableSize >= rowCount && tableSize >= columnCount &&
      StoreValid(Abs())
    }

    /** The logical matrix: every cell that holds a value. */
    ghost function Contents(): map<Key, int32>
      reads this, rows, cols, elems
      requires Sized()
    {
      HashTable.Contents(View(rows, cols, elems))
    }

    /** `Matrix(nrRows, nrCols)` for dimensions it accepts (Matrix.cpp:4-15). */
    constructor (nrRows: u32, nrCols: u32)
      requires 0 < nrRows <= 0x8000_0000 && 0 < nrCols <= 0x8000_0000
      ensures Valid() && fresh(rows) && fresh(cols) && fresh(elems)
      ensures rowCount == nrRows && columnCount == nrCols
      ensures Abs() == InitialStore(InitialSize(nrRows, nrCols))
      ensures Contents() == map[]
    {
      rowCount := nrRows;
      columnCount := nrCols;
      elementCount := 0;
      var ts: nat := 4;
      assert PowerOfTwo(4) by { assert PowerOfTwo(2); }
      while ts < nrRows || ts < nrCols
        invariant PowerOfTwo(ts) && ts >= 4
        invariant GrowSize(ts, nrRows, nrCols) == InitialSize(nrRows, nrCols)
        decreases (if nrRows > nrCols then nrRows else nrCols) - ts
      {
        PowerOfTwoDouble(ts);
        ts := 2 * ts;
      }
      tableSize := ts;
      elems := new int32[ts](_ => NULL_TELEM);
      rows := new u32[ts](q => if q == 0 then MINUS_ONE_KEY else 0);
      cols := new u32[ts](q => if q == 0 then MINUS_ONE_KEY else 0);
      deletedCount := 0;
      new;
      assert View(rows, cols, elems) == InitialTable(ts);
      InitialStoreEmpty(ts);
    }

    /** `nrLines` (Matrix.cpp:23). */
    function NrLines(): (n: u32)
      reads this, rows, cols, elems
      requires Valid()
      ensures 0 < n <= tableSize
    {
      rowCount
    }

    /** `nrColumns` (Matrix.cpp:26). */
    function NrColumns(): (n: u32)
      reads this, rows, cols, elems
      requires Valid()
      ensures 0 < n <= tableSize
    {
      columnCount
    }

    /** `element(i, j)` (Matrix.cpp:30-43): the bounds checks, then the
        probe. A cell of the logical matrix reads as its value; any other
        cell reads as `NULL_TELEM` unless its probe ran out on a slot that
        holds another cell. A tombstone is never returned. */
    method Element(i: u32, j: u32) returns (r: Result<int32>)
      requires Valid()
      ensures i >= rowCount ==> r == Err(InvalidRow)
      ensures i < rowCount && j >= columnCount ==> r == Err(InvalidCol)
      ensures i < rowCount && j < columnCount ==>
                r == Ok(Lookup(Abs().table, (i, j))) && r.value != DELETED_TELEM
      ensures i < rowCount && j < columnCount && (i, j) in Contents() ==>
                r == Ok(Contents()[(i, j)])
      ensures (i < rowCount && j < columnCount && (i, j) !in Contents() &&
               !Misdirected(Abs().table, (i, j))) ==> r == Ok(NULL_TELEM)
    {
      if i >= rowCount {
        return Err(InvalidRow);
      }
      if j >= columnCount {
        return Err(InvalidCol);
      }
      ghost var t := Abs().table;
      var position := Locate(i, j);
      LookupSpec(t, (i, j));
      r := Ok(if elems[position] == DELETED_TELEM then NULL_TELEM else elems[position]);
    }

    /** `rehash` (Matrix.cpp:86-108): the live entries re-seated into fresh
        arrays of the same size, tombstones dropped, deleted counter reset. */
    method Rehash()
      requires Sized()
      modifies this
      ensures Sized() && fresh(rows) && fresh(cols) && fresh(elems)
      ensures tableSize == old(tableSize) && elementCount == old(elementCount)
      ensures deletedCount == 0
      ensures Abs().table == Rebuild(old(Abs().table), tableSize)
    {
      var nr, nc, ne := RebuildInto(rows, cols, elems, tableSize);
      deletedCount := 0;
      elems, cols, rows := ne, nc, nr;
    }

    /** `resizeAndRehash` (Matrix.cpp:110-133): as `rehash`, into fresh
        arrays of twice the size. */
    method ResizeAndRehash()
      requires Sized()
      modifies this
      ensures Sized() && fresh(rows) && fresh(cols) && fresh(elems)
      ensures tableSize == 2 * old(tableSize) && elementCount == old(elementCount)
      ensures deletedCount == 0
      ensures Abs().table == Rebuild(old(Abs().table), tableSize)
    {
      var ts := 2 * tableSize;
      var nr, nc, ne := RebuildInto(rows, cols, elems, ts);
      tableSize := ts;
      deletedCount := 0;
      elems, cols, rows := ne, nc, nr;
    }

    /** The probe loop of `element` and `modify` (Matrix.cpp:35-41, 50-56):
        it stops where `Find` says. */
    method Locate(i: u32, j: u32) returns (position: nat)
      requires Sized()
      ensures position == Find(Abs().table, (i, j))
    {
      ghost var t := Abs().table;
      position := Hash(i, j, tableSize);
      var attempt: nat := 0;
      while !((i == rows[position] && j == cols[position]) ||
              elems[position] == NULL_TELEM || attempt >= tableSize)
        invariant position < tableSize && attempt <= tableSize
        invariant Probe(t, (i, j), position, attempt) == Find(t, (i, j))
        decreases tableSize - attempt
      {
        attempt := attempt + 1;
        position := Step(position, attempt, tableSize);
      }
    }

    /** The delete branch of `modify` on a live slot (Matrix.cpp:61-67). */
    method DeleteAt(ghost k: Key, position: nat) returns (prev: int32)
      requires Valid() && position == Find(Abs().table, k) && Live(Abs().table, position)
      modifies this, elems
      ensures Valid()
      ensures rows == old(rows) || fresh(rows)
      ensures cols == old(cols) || fresh(cols)
      ensures elems == old(elems) || fresh(elems)
      ensures Abs() == StoreModify(old(Abs()), k, NULL_TELEM).0
      ensures prev == StoreModify(old(Abs()), k, NULL_TELEM).1
    {
      ghost var s := Abs();
      ghost var t := s.table;
      ModifyKeepsValid(s, k, NULL_TELEM);
      ContentsHas(t, position);
      prev := elems[position];
      elems[position] := DELETED_TELEM;
      deletedCount := deletedCount + 1;
      elementCount := elementCount - 1;
      assert View(rows, cols, elems) == Write(t, position, KeyAt(t, position), DELETED_TELEM);
      if 100 * deletedCount > 33 * tableSize {
        Rehash();
      }
    }

    /** The insert branch of `modify`, into an empty slot or a tombstone
        (Matrix.cpp:69-78). */
    method InsertAt(i: u32, j: u32, e: int32, position: nat)
      requires Valid() && IsLive(e)
      requires position == Find(Abs().table, (i, j)) && !Live(Abs().table, position)
      modifies this, rows, cols, elems
      ensures Valid()
      ensures rows == old(rows) || fresh(rows)
      ensures cols == old(cols) || fresh(cols)
      ensures elems == old(elems) || fresh(elems)
      ensures Abs() == StoreModify(old(Abs()), (i, j), e).0
      ensures e == StoreModify(old(Abs()), (i, j), e).1
    {
      ghost var s := Abs();
      ghost var t := s.table;
      ModifyKeepsValid(s, (i, j), e);
      rows[position] := i;
      cols[position] := j;
      elems[position] := e;
      elementCount := elementCount + 1;
      // The slot was just written with e, so this adjustment is always 0.
      deletedCount := deletedCount + (if elems[position] == DELETED_TELEM then -1 else 0);
      assert View(rows, cols, elems) == Write(t, position, (i, j), e);
      if 4 * elementCount >= 3 * tableSize {
        ResizeAndRehash();
      }
    }

    /** The overwrite branch of `modify`: a live slot gets the new value
        (Matrix.cpp:79-82). */
    method OverwriteAt(ghost k: Key, e: int32, position: nat) returns (prev: int32)
      requires Valid() && IsLive(e)
      requires position == Find(Abs().table, k) && Live(Abs().table, position)
      modifies elems
      ensures Valid()
      ensures Abs() == StoreModify(old(Abs()), k, e).0
      ensures prev == StoreModify(old(Abs()), k, e).1
    {
      ghost var s := Abs();
      ghost var t := s.table;
      ModifyKeepsValid(s, k, e);
      prev := elems[position];
      elems[position] := e;
      assert View(rows, cols, elems) == Write(t, position, KeyAt(t, position), e);
    }

    /** `modify(i, j, e)` (Matrix.cpp:45-84): the bounds checks, the probe,
        then a delete, an insert or an overwrite, with the rebuild each may
        trigger. The new state and the returned value are those of
        `StoreModify`; ModifyContents and ModifyReturns say what they mean. */
    method Modify(i: u32, j: u32, e: int32) returns (r: Result<int32>)
      requires Valid() && e != DELETED_TELEM
      modifies this, rows, cols, elems
      ensures Valid()
      ensures rows == old(rows) || fresh(rows)
      ensures cols == old(cols) || fresh(cols)
      ensures elems == old(elems) || fresh(elems)
      ensures i >= rowCount ==> r == Err(InvalidRow) && Abs() == old(Abs())
      ensures i < rowCount && j >= columnCount ==> r == Err(InvalidCol) && Abs() == old(Abs())
      ensures i < rowCount && j < columnCount ==>
                Abs() == StoreModify(old(Abs()), (i, j), e).0 &&
                r == Ok(StoreModify(old(Abs()), (i, j), e).1)
    {
      if i >= rowCount {
        return Err(InvalidRow);
      }
      if j >= columnCount {
        return Err(InvalidCol);
      }
      var position := Locate(i, j);
      if e == NULL_TELEM {
        if elems[position] == NULL_TELEM || elems[position] == DELETED_TELEM {
          return Ok(NULL_TELEM);
        }
        var prev := DeleteAt((i, j), position);
        return Ok(prev);
      }
      if elems[position] == NULL_TELEM || elems[position] == DELETED_TELEM {
        InsertAt(i, j, e, position);
        return Ok(e);
      }
      var prev := OverwriteAt((i, j), e, position);
      return Ok(prev);
    }

    /** `setMainDiagonal(e)` (Matrix.cpp:135-141): refused for a non-square
        matrix, otherwise `modify(d, d, e)` for every d in index order. */
    method SetMainDiagonal(e: int32) returns (r: Result<()>)
      requires Valid() && e != DELETED_TELEM
      modifies this, rows, cols, elems
      ensures Valid()
      ensures rowCount != columnCount ==> r == Err(NotSquare) && Abs() == old(Abs())
      ensures rowCount == columnCount ==>
                r == Ok(()) && Abs() == FillDiagonal(old(Abs()), 0, rowCount, e)
    {
      if rowCount != columnCount {
        return Err(NotSquare);
      }
      ghost var s0 := Abs();
      var d: nat := 0;
      while d < rowCount
        invariant d <= rowCount && Valid()
        invariant rows == old(rows) || fresh(rows)
        invariant cols == old(cols) || fresh(cols)
        invariant elems == old(elems) || fresh(elems)
        invariant FillDiagonal(Abs(), d, rowCount, e) == FillDiagonal(s0, 0, rowCount, e)
      {
        var _ := Modify(d, d, e);
        d := d + 1;
      }
      return Ok(());
    }
  }

  /** The constructor with its dimension check: a zero dimension is refused
      (Matrix.cpp:5-6), any other gives an empty matrix. */
  method NewMatrix(nrRows: u32, nrCols: u32) returns (r: Result<Matrix>)
    requires nrRows == 0 || nrCols == 0 || (nrRows <= 0x8000_0000 && nrCols <= 0x8000_0000)
    ensures r.Err? <==> nrRows == 0 || nrCols == 0
    ensures r.Err? ==> r.error == InvalidDimension
    ensures r.Ok? ==> fresh(r.value) && r.value.Valid() &&
                      r.value.NrLines() == nrRows && r.value.NrColumns() == nrCols &&
                      r.value.Abs() == InitialStore(InitialSize(nrRows, nrCols)) &&
                      r.value.Contents() == map[]
  {
    if nrRows == 0 || nrCols == 0 {
      return Err(InvalidDimension);
    }
    var m := new Matrix(nrRows, nrCols);
    return Ok(m);
  }
}
