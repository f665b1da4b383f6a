# Sparse integer matrix over an open-addressing hash table

This project models a C++ `Matrix` class. The class stores the non-zero
cells of a `row_count × column_count` integer matrix in a hash table with
open addressing. The table is three parallel heap arrays: row keys, column
keys and values. `NULL_TELEM` (0) marks an empty slot and `DELETED_TELEM`
(`INT_MIN`) marks a tombstone. The class supports:

- reading a cell (`element`);
- writing a cell (`modify`): an insert, an overwrite, or a lazy delete that
  leaves a tombstone;
- rebuilding the table at the same size, into fresh arrays, when the
  deleted counter passes 33% of the slots (`rehash`);
- rebuilding into twice the slots when live entries reach 75% (`resizeAndRehash`);
- filling the main diagonal (`setMainDiagonal`).

The model has four layers, one module each:

- `Probing` (probing.dfy): the 32-bit hash, the cumulative probe step and
  the constructor's table size.
- `HashTable` (table.dfy): the arrays as a value `Table` and the two probe
  loops as recursive functions. `Find` is the lookup probe of `element` and
  `modify`; `Place` is the empty-slot probe of the rebuilds. The layer also
  defines the logical matrix `Contents`, the representation invariant
  `Reach`, and what a one-slot write and a rebuild do to both.
- `SparseStore` (store.dfy): the table plus the two counters as a value
  `Store`. `StoreModify` is `modify` after its bounds checks. `FillDiagonal`
  is the loop of `setMainDiagonal`. Lemmas state what these do to the
  logical matrix, the counters and the load bounds.
- `SparseMatrix` (matrix.dfy): the class itself. It has the three arrays as
  `array` fields, the counters and table size as `var` fields, and the
  dimensions as `const` fields. `element`, `modify`, `rehash`,
  `resizeAndRehash` and `setMainDiagonal` are methods with the source's
  loops and in-place updates. Each is proved against the value layer
  through the ghost function `Abs()`.

`Scenarios` (scenarios.dfy) holds concrete runs that exhibit two behaviours
of the code as written.

## Modelling choices

- **Keys.** The key arrays are `int`. Every comparison and every hash
  converts them to `unsigned`. The model therefore keeps keys as 32-bit
  unsigned values, and the initial `-1` is `0xFFFF_FFFF`. `new int[n]{-1}`
  sets only index 0 to -1; the other slots start at 0. The rebuild arrays
  start at 0 everywhere.
- **32-bit arithmetic.** The hash is computed on `bv32`. The probe step
  reduces `attempt * attempt` and the sum modulo 2^32, as the unsigned
  arithmetic of the source does.
- **Thresholds.** The source compares floating-point ratios against 0.75
  and 0.33. The table size is always a power of two, so the ratio
  `count / table_size` is exact in a double. No such ratio lies between
  0.33 and the double nearest to it. The comparisons therefore equal the
  integer tests `4 * count >= 3 * size` and `100 * deleted > 33 * size`.
- **The probe.** It is cumulative, and its first step revisits the home
  slot. It stops on:
  - a key match, even on a tombstone;
  - an empty value;
  - `attempt >= table_size`.
- **What the probe misses.** The probe need not visit every slot: on four
  slots it visits only three (`Scenarios.ProbeSkipsSlot`). Meanwhile the
  load bound keeps the live entries only strictly below three quarters of
  the slots (`4 * count < 3 * size`), so on four slots two may be live. A probe
  can therefore run out on the live slot of another cell. This case is
  called `Misdirected`.
  - `element` then returns that other cell's value.
  - `modify` overwrites that cell.
  - `Scenarios.ExhaustedProbeOverwrites` exhibits this on a 4 × 4 matrix.
  - In the same way, a rebuild whose probe runs out re-seats an entry over
    another one.
- **Unconditional and conditional results.** The representation invariant
  `Reach` holds unconditionally, including after misdirected writes and
  lossy rebuilds. `Reach` says that the lookup for the keys of every
  non-empty slot stops on that slot. Map-level properties are stated for
  probes that are not misdirected and for rebuilds that lose nothing
  (`Lossless`). These results need neither condition:
  - a rebuild never adds or changes an entry (`RebuildSound`);
  - `modify` never brings a cell other than its own into the logical
    matrix, and a delete always leaves its cell out (`ModifyContents`);
  - a delete that triggers no compaction leaves its cell reading
    `NULL_TELEM` (`DeleteThenLookup`).

  One round trip needs no non-misdirection condition, only a lossless
  triggered rebuild. After writing a real value, a read of the cell returns
  it (`ModifyThenLookup`). A misdirected write overwrites the slot its probe
  stopped on, and the read stops there again.
- **The deleted counter.** Matrix.cpp:74 decides whether to decrement the
  deleted counter by reading the slot after line 72 has overwritten it. The
  counter therefore never decreases when an insert reuses a tombstone. The
  model keeps this as written: `StoreModify` leaves `deleted` unchanged on
  every insert. `Scenarios.ReusedTombstoneStaysCounted` shows a table with
  no tombstone whose counter reads 1. The only effect is an earlier
  `rehash`. `StoreValid` therefore bounds `deleted` only from above, by the
  tombstone threshold, and never ties it to the number of tombstones.
- **The live counter.** A lossy rebuild drops entries but keeps
  `element_count`. `StoreValid` therefore bounds `count` from below by the
  number of live entries and does not require it to be equal.

## Model

| member | source | states |
|---|---|---|
| Probing.Hash | Matrix.cpp:28 | the bit-mixing hash on 32-bit unsigned values, reduced modulo the table size; the result is a slot index |
| Probing.Step | Matrix.cpp:40 | one cumulative probe step, with 32-bit wrap of `attempt * attempt` and of the sum; the result is a slot index |
| Probing.SizeAfter | Matrix.cpp:8-10 | the sizing loop on a 32-bit `unsigned`: after any number of doublings from 4 the value is 0 or a single bit |
| Probing.SizingNeverEnds | Matrix.cpp:9-10 | for a row count above 2^31 the loop condition holds after every number of iterations, so the loop never ends |
| Probing.GrowSize | Matrix.cpp:9-10 | the doubling loop ends on a power of two that is at least both dimensions, and it stops at the first such value |
| Probing.InitialSize | Matrix.cpp:8-10 | the initial table size is a power of two, at least 4 and at least both dimensions; past 4, half of it is below a dimension |
| Probing.InitialSizeIsLeast | Matrix.cpp:8-10 | the initial table size is the least power of two that is at least 4 and at least both dimensions |
| HashTable.Find | Matrix.cpp:35-41 | the lookup probe from the hash slot with attempt 0; it stops on a slot in range (`FindOwner`, `SlotOfKey` and `LookupSpec` say which) |
| HashTable.Lookup | Matrix.cpp:35-42 | the value `element` returns after its bounds checks: the stopping slot's value with a tombstone read as empty, so never the tombstone |
| HashTable.Probe | Matrix.cpp:37-41 | the lookup loop with its three exits; the slot it stops on is in range |
| HashTable.PlacePos | Matrix.cpp:93-98 | the rebuild's probe for an entry, from its hash slot with attempt 0; it stops on a slot in range |
| HashTable.Write | Matrix.cpp:99-101 | writing keys and a value into one slot keeps the three arrays well sized and the table size unchanged |
| HashTable.Place | Matrix.cpp:95-98 | the rebuild loop, which looks only for an empty slot; the slot it stops on is in range |
| HashTable.LookupSpec | Matrix.cpp:35-42 | a cell of the logical matrix reads as its value; any other cell reads `NULL_TELEM` unless its probe is misdirected; a read never yields the tombstone |
| HashTable.FindOwner | Matrix.cpp:37 | under the invariant, the probe for a cell of the logical matrix stops on the live slot that holds it |
| HashTable.WriteKeepsReach | Matrix.cpp:62 | writing a non-empty value with keys k into the slot where k's probe stops keeps the representation invariant, whether or not the probe was misdirected |
| HashTable.WriteContents | Matrix.cpp:70-72 | a one-slot write removes the key the slot held while live and adds k with the new value when that value is live |
| HashTable.EmptyTable | Matrix.cpp:87-89 | the fresh arrays of a rebuild: `ts` slots and none of them occupied |
| HashTable.Reinsert | Matrix.cpp:93-101 | re-seating one entry keeps the table size; `SparseMatrix.Reseat` proves the array loop equal to it, and `RebuildSound`/`RebuildUpToLossless` say what the re-seats do to the logical matrix |
| HashTable.RebuildUpTo | Matrix.cpp:91-103 | the new table after the loop has visited the first n old slots; it has `ts` slots and no tombstone |
| HashTable.Rebuild | Matrix.cpp:116-128 | the table a rebuild into `ts` slots produces; it has `ts` slots and no tombstone |
| HashTable.RebuildSound | Matrix.cpp:91-104 | a rebuild keeps the invariant, leaves no tombstone, and every entry it holds is an entry of the old logical matrix with the same value |
| HashTable.RebuildKeepsContents | Matrix.cpp:91-103 | a rebuild whose re-seats all find empty slots keeps exactly the old logical matrix |
| HashTable.RebuildUpToLossless | Matrix.cpp:116-128 | after the loop has visited the first n old slots without loss, the new table holds exactly their live entries |
| SparseStore.InitialTable | Matrix.cpp:11-13 | the constructor's arrays: no slot occupied, and slot 0's keys are -1 |
| SparseStore.InitialStore | Matrix.cpp:7-14 | the constructor's state: the initial table of the given size and both counters 0 |
| SparseStore.InitialStoreEmpty | Matrix.cpp:7-14 | the fresh state is valid, holds no entry and reads `NULL_TELEM` everywhere, although slot 0's keys are -1 |
| SparseStore.StoreModify | Matrix.cpp:50-83 | `modify` after its bounds checks: the returned value is never the tombstone, a write of a real value returns a real value, and a delete that returns the empty value changes nothing |
| SparseStore.DeleteWrite | Matrix.cpp:61-64 | turning the live slot into a tombstone removes exactly its cell from the logical matrix |
| SparseStore.InsertWrite | Matrix.cpp:70-73 | an insert into an empty slot or a tombstone adds the cell with its value |
| SparseStore.OverwriteWrite | Matrix.cpp:80-81 | an overwrite changes only the value of the slot's cell |
| SparseStore.SlotOfKey | Matrix.cpp:37 | when the probe is not misdirected, a live stopping slot holds the cell looked for, and a cell of the logical matrix is found on its slot |
| SparseStore.ModifyKeepsValid | Matrix.cpp:57-78 | after `modify` the invariant, the power-of-two size and both load bounds hold again; the size is kept or doubled, and doubled exactly when an insert into a non-live slot reaches the load threshold |
| SparseStore.ModifyReturns | Matrix.h:89 | `modify` returns the cell's previous value, or `e` when the cell held nothing |
| SparseStore.ModifyContents | Matrix.cpp:45-84 | `modify` never brings another cell into the logical matrix and a delete always removes its cell; when the probe is not misdirected, nothing is added or changed beyond the intended update, and exactly that update is made when any triggered rebuild is lossless |
| SparseStore.ModifyCounters | Matrix.cpp:63-75 | the counter and size changes of each branch: overwrite keeps all; insert adds one live entry and keeps the deleted counter or resets it on doubling; delete moves one entry to the deleted counter or resets it on compaction; deleting an absent cell changes nothing |
| SparseStore.ModifyThenLookup | Matrix.cpp:69-83 | round trip: after writing a live value, reading the cell returns it, misdirected probes included, whenever any triggered rebuild is lossless |
| SparseStore.DeleteThenLookup | Matrix.cpp:57-68 | after deleting, in every case, the cell is absent; it reads `NULL_TELEM` whenever no compaction was triggered, and otherwise whenever that read is not misdirected |
| SparseStore.FillDiagonal | Matrix.cpp:138-140 | the loop of `modify(d, d, e)` calls; every intermediate state is valid |
| SparseStore.SetDiagonalCells | Matrix.cpp:138-140 | the intended effect sets each diagonal cell in range to e (removes it for `NULL_TELEM`) and keeps every other cell |
| SparseStore.FillDiagonalContents | Matrix.cpp:138-140 | when every step is undisturbed, the loop leaves the logical matrix exactly as the intended effect says |
| SparseMatrix.Reseat | Matrix.cpp:93-101 | re-seating one entry into the new arrays is `Reinsert` on their contents |
| SparseMatrix.RebuildInto | Matrix.cpp:91-103 | the re-insertion loop fills fresh zeroed arrays with exactly `Rebuild` of the old arrays |
| SparseMatrix.NewMatrix | Matrix.cpp:4-15 | a zero dimension is refused with `InvalidDimension`; otherwise the result is a valid, empty matrix of the given dimensions whose state is the initial store at the least admissible table size |
| SparseMatrix.Matrix.constructor | Matrix.cpp:4-15 | the state is the initial store at the least admissible table size, with both counters 0 and an empty logical matrix |
| SparseMatrix.Matrix.NrLines | Matrix.cpp:23 | the row count, which the constructor fixed, is positive and at most the table size |
| SparseMatrix.Matrix.NrColumns | Matrix.cpp:26 | the column count, which the constructor fixed, is positive and at most the table size |
| SparseMatrix.Matrix.Locate | Matrix.cpp:35-41 | the probe loop over the arrays stops on the slot `Find` names |
| SparseMatrix.Matrix.Element | Matrix.cpp:30-43 | row then column bounds errors; otherwise the cell's value if present, `NULL_TELEM` if absent and not misdirected, never the tombstone |
| SparseMatrix.Matrix.Rehash | Matrix.cpp:86-108 | fresh arrays of the same size holding the rebuilt table, deleted counter 0, live counter kept |
| SparseMatrix.Matrix.ResizeAndRehash | Matrix.cpp:110-133 | fresh arrays of twice the size holding the rebuilt table, deleted counter 0, live counter kept |
| SparseMatrix.Matrix.DeleteAt | Matrix.cpp:61-67 | tombstone, counter updates and compaction leave the state and result of `StoreModify` |
| SparseMatrix.Matrix.InsertAt | Matrix.cpp:70-78 | the three writes, the counter updates and the doubling leave the state of `StoreModify` |
| SparseMatrix.Matrix.OverwriteAt | Matrix.cpp:80-82 | the value write leaves the state and result of `StoreModify` |
| SparseMatrix.Matrix.Modify | Matrix.cpp:45-84 | row then column bounds errors leave everything unchanged; otherwise the new state and result are those of `StoreModify`, and the class invariant holds |
| SparseMatrix.Matrix.SetMainDiagonal | Matrix.cpp:135-141 | a non-square matrix is refused unchanged; otherwise the state is `FillDiagonal` from 0 to the dimension |
| Scenarios.ProbeSkipsSlot | Matrix.cpp:40 | on four slots the probe from slot 0 visits 0, 0, 3, 0, 2 |
| Scenarios.ExhaustedProbeOverwrites | Matrix.cpp:79-82 | after four calls on a 4 × 4 matrix, `modify(0,0,7)` returns 5, the value of cell (0,1), and writes 7 into (0,1) instead of adding (0,0) |
| Scenarios.ReusedTombstoneStaysCounted | Matrix.cpp:74 | after insert, delete and re-insert of one cell, no tombstone remains but the deleted counter is 1 |

## Left out

- The destructor and the `delete[]` of the old arrays (Matrix.cpp:17-21,
  105-107, 130-132) are not modelled. Dafny's arrays are garbage-collected;
  replacing the arrays is a field assignment.
- The `std::runtime_error` exceptions are not modelled as exceptions. They
  are the `Error` values of a `Result`.
- SparseMatrix.Matrix.constructor: requires each dimension to be at most
  2^31. SparseMatrix.NewMatrix requires the same only when neither dimension
  is 0, since a zero dimension throws before the sizing loop. A dimension
  above 2^31, when neither is 0, makes the source's 32-bit doubling reach 0
  and never end (`Probing.SizingNeverEnds`).
- `table_size` is a 32-bit `unsigned` in the source and doubling it past
  2^31 wraps to 0. The model's table size is an unbounded natural number,
  so that wrap is not modelled. Reaching it takes more than 1.6 billion
  live cells.
- `setMainDiagonal` counts with an `int`, which would overflow after 2^31 - 1
  for a 2^31 × 2^31 matrix. The model counts with a natural number.
- The floating-point ratio tests are replaced by exact integer comparisons.
  Modelling choices above explains why they agree.
- HashTable.LookupSpec, SparseMatrix.Matrix.Element: a cell outside the
  logical matrix reads `NULL_TELEM` only when its probe is not misdirected.
  Exhausted probes are reachable, so this cannot be stated unconditionally.
- SparseStore.ModifyReturns, SparseStore.ModifyCounters: stated only for
  probes that are not misdirected. A misdirected `modify` returns and
  overwrites another cell's value.
- SparseStore.ModifyContents: the exact update is stated only for probes
  that are not misdirected and for triggered rebuilds that are lossless. A
  misdirected `modify` overwrites or deletes another cell; for it the model
  proves only that no other cell enters the matrix.
- SparseStore.ModifyThenLookup: requires any rebuild the write triggers to
  be lossless, because a lossy one can drop the written cell. A real-value
  write can trigger only `resizeAndRehash`. That rebuild re-seats at most
  3·ts/4 + 1 entries into 2·ts slots. By a count of the slots the probe
  visits, every such re-seat appears to find an empty slot. The model does
  not prove this coverage bound, so the requirement stays.
- HashTable.RebuildKeepsContents: requires every re-seat to find an empty
  slot. The rebuild probe can run out too, and the model does not
  characterise which slots a probe covers for each table size.
- SparseStore.FillDiagonalContents: requires every `modify` of the loop to
  be undisturbed (`DiagonalSettles`). A misdirected diagonal write can change
  an off-diagonal cell.
- The complexity annotations of Matrix.h are not contracts and are left out.
- The header comment that triples are ordered lexicographically
  (Matrix.h:5-6) is left out, because no code keeps an order.
- A caller passing `DELETED_TELEM` to `modify` or `setMainDiagonal` is
  excluded by a precondition. The source gives that value no meaning as
  data.
