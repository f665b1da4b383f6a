/** Integer widths, sentinel values, the hash function, the probe step and
    the initial table size of the sparse matrix (Matrix.h, Matrix.cpp). */
module Probing {

  const TWO32: int := 0x1_0000_0000

  /** An `unsigned int` of the source. */
  type u32 = x: int | 0 <= x < 0x1_0000_0000

  /** `TElem` is a 32-bit `int`. */
  type int32 = x: int | -0x8000_0000 <= x < 0x8000_0000

  /** Value of an empty slot, or of a cell that holds nothing. */
  const NULL_TELEM: int32 := 0
  /** Value of a tombstone, `INT_MIN`. */
  const DELETED_TELEM: int32 := -0x8000_0000

  /** The key arrays are `int`, initialised with `{-1}`; every comparison and
      every hash reads them as `unsigned`, so the model stores the unsigned
      bit pattern, and -1 is 0xFFFF_FFFF. */
  const MINUS_ONE_KEY: u32 := 0xFFFF_FFFF

  ghost predicate PowerOfTwo(n: nat)
    decreases n
  {
    n == 1 || (n > 1 && n % 2 == 0 && PowerOfTwo(n / 2))
  }

  /** Bit mixing of `hash`: `(((row ^ col) << 1) + ((row & col) >> 1))`,
      all in 32-bit unsigned arithmetic, then `% table_size`. */
  function Hash(row: u32, col: u32, ts: nat): (h: nat)
    requires ts > 0
    ensures h < ts
  {
    var r := row as bv32;
    var c := col as bv32;
    (((r ^ c) << 1) + ((r & c) >> 1)) as int % ts
  }

  /** One step of the cumulative probe, taken with the already incremented
      attempt counter: `(position + (attempt >> 1) + ((attempt * attempt) >> 1))
      % table_size`, every operation in 32-bit unsigned arithmetic. */
  function Step(pos: nat, attempt: nat, ts: nat): (p: nat)
    requires ts > 0
    ensures p < ts
  {
    ((pos + attempt / 2 + (attempt * attempt % TWO32) / 2) % TWO32) % ts
  }

  /** The constructor's sizing loop, `while (t < nrRows || t < nrCols) t <<= 1`,
      as a function of the current value `t`. */
  function GrowSize(t: nat, nrRows: nat, nrCols: nat): (ts: nat)
    requires t > 0 && PowerOfTwo(t)
    ensures PowerOfTwo(ts) && ts >= t && ts >= nrRows && ts >= nrCols
    ensures ts == t || (ts / 2 < nrRows || ts / 2 < nrCols)
    ensures ts == t || ts / 2 >= t
    decreases (if nrRows > nrCols then nrRows else nrCols) - t
  {
    if t < nrRows || t < nrCols then
      var next := GrowSize(2 * t, nrRows, nrCols);
      assert PowerOfTwo(2 * t) by { assert (2 * t) / 2 == t; }
      next
    else t
  }

  /** The sizing loop as the source runs it, on a 32-bit `unsigned`: the
      value of `table_size` after n iterations of `table_size <<= 1` from 4.
      It is always 0 or a single bit. */
  function SizeAfter(n: nat): (t: bv32)
    ensures t & (t - 1) == 0
  {
    if n == 0 then 4 else SizeAfter(n - 1) << 1
  }

  /** For a row count above 2^31 the loop condition `table_size < nrRows`
      holds after every number of iterations: the 32-bit loop never ends.
      The model's constructor therefore requires both dimensions to be at
      most 2^31. */
  lemma {:induction false} SizingNeverEnds(nrRows: u32, n: nat)
    requires nrRows > 0x8000_0000
    ensures SizeAfter(n) as int < nrRows
  {
    var t := SizeAfter(n);
    assert t <= 0x8000_0000;
  }

  /** The initial table size: the smallest power of two that is at least 4
      and at least both dimensions. */
  function InitialSize(nrRows: nat, nrCols: nat): (ts: nat)
    ensures PowerOfTwo(ts) && ts >= 4 && ts >= nrRows && ts >= nrCols
    ensures ts == 4 || ts / 2 < nrRows || ts / 2 < nrCols
  {
    assert PowerOfTwo(4) by { assert PowerOfTwo(2); }
    GrowSize(4, nrRows, nrCols)
  }

  lemma {:induction false} InitialSizeIsLeast(nrRows: nat, nrCols: nat, p: nat)
    requires PowerOfTwo(p) && p >= 4 && p >= nrRows && p >= nrCols
    ensures InitialSize(nrRows, nrCols) <= p
  {
    var ts := InitialSize(nrRows, nrCols);
    if ts > 4 {
      PowerOfTwoBelow(ts / 2, p);
    }
  }

  /** Between two powers of two, one strictly below the other is at most half. */
  lemma {:induction false} PowerOfTwoBelow(a: nat, b: nat)
    requires PowerOfTwo(a) && PowerOfTwo(b) && a < b
    ensures 2 * a <= b
    decreases b
  {
    if a > 1 {
      PowerOfTwoBelow(a / 2, b / 2);
    }
  }

  lemma PowerOfTwoDouble(n: nat)
    requires PowerOfTwo(n)
    ensures PowerOfTwo(2 * n)
  {
    assert (2 * n) / 2 == n;
  }
}
