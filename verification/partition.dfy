/**
  The row bands the threaded variant hands to its workers: band `n` of
  `numThreads` starts at `n * (rows / numThreads)`; every band but the last is
  `rows / numThreads` rows tall, and the last one runs to `rows`, taking the
  remainder.
  */
module Partition {

  function RowsPerThread(rows: nat, numThreads: nat): nat
    requires numThreads >= 1
  {
    rows / numThreads
  }

  /** Band `n` starts where band `n - 1` would end if it had the common height. */
  function BandStart(rows: nat, numThreads: nat, n: nat): nat
    requires numThreads >= 1
  {
    if n == 0 then 0 else BandStart(rows, numThreads, n - 1) + RowsPerThread(rows, numThreads)
  }

  function BandEnd(rows: nat, numThreads: nat, n: nat): nat
    requires numThreads >= 1
  {
    if n == numThreads - 1 then rows else BandStart(rows, numThreads, n) + RowsPerThread(rows, numThreads)
  }

  /** Row `r` belongs to band `n`. */
  predicate InBand(rows: nat, numThreads: nat, n: nat, r: int)
    requires numThreads >= 1
  {
    n < numThreads && BandStart(rows, numThreads, n) <= r < BandEnd(rows, numThreads, n)
  }

  /** Band `n` starts at row `n * rowsPerThread`, as the driver computes it. */
  lemma {:induction false} BandStartIsProduct(rows: nat, numThreads: nat, n: nat)
    requires numThreads >= 1
    ensures BandStart(rows, numThreads, n) == n * RowsPerThread(rows, numThreads)
  {
    if n > 0 {
      BandStartIsProduct(rows, numThreads, n - 1);
      var p := RowsPerThread(rows, numThreads);
      assert (n - 1) * p + p == n * p;
    }
  }

  /** Later bands start no earlier. */
  lemma {:induction false} BandStartMonotone(rows: nat, numThreads: nat, a: nat, b: nat)
    requires numThreads >= 1 && a <= b
    ensures BandStart(rows, numThreads, a) <= BandStart(rows, numThreads, b)
  {
    if a < b {
      BandStartMonotone(rows, numThreads, a, b - 1);
    }
  }

  /**
    The bands follow one another without gap: the first starts at row 0, each
    ends where the next starts, the last ends at `rows`, and none is reversed.
    */
  lemma BandsAreContiguous(rows: nat, numThreads: nat, n: nat)
    requires numThreads >= 1 && n < numThreads
    ensures BandStart(rows, numThreads, 0) == 0
    ensures BandStart(rows, numThreads, n) == n * RowsPerThread(rows, numThreads)
    ensures BandStart(rows, numThreads, n) <= BandEnd(rows, numThreads, n) <= rows
    ensures n + 1 < numThreads ==> BandEnd(rows, numThreads, n) == BandStart(rows, numThreads, n + 1)
    ensures BandEnd(rows, numThreads, numThreads - 1) == rows
  {
    var p := RowsPerThread(rows, numThreads);
    BandStartIsProduct(rows, numThreads, n);
    BandStartIsProduct(rows, numThreads, numThreads);
    BandStartMonotone(rows, numThreads, n + 1, numThreads);
    assert numThreads * p <= rows;
  }

  /** An earlier band ends no later than a later band starts. */
  lemma EarlierBandEndsFirst(rows: nat, numThreads: nat, lo: nat, hi: nat)
    requires numThreads >= 1 && lo < hi < numThreads
    ensures BandEnd(rows, numThreads, lo) <= BandStart(rows, numThreads, hi)
  {
    BandStartMonotone(rows, numThreads, lo + 1, hi);
  }

  /** Two different bands share no row. */
  lemma BandsAreDisjoint(rows: nat, numThreads: nat, n: nat, m: nat, r: int)
    requires numThreads >= 1 && n != m
    ensures !(InBand(rows, numThreads, n, r) && InBand(rows, numThreads, m, r))
  {
    if n < m < numThreads {
      EarlierBandEndsFirst(rows, numThreads, n, m);
    } else if m < n < numThreads {
      EarlierBandEndsFirst(rows, numThreads, m, n);
    }
  }

  /** Integer division leaves a remainder below the divisor. */
  lemma DivBounds(r: nat, p: nat)
    requires p > 0
    ensures (r / p) * p <= r < (r / p) * p + p
  {
    assert r == (r / p) * p + r % p;
  }

  /** The band that handles row `r`: the last band for the remainder rows, `r / rowsPerThread` otherwise. */
  function BandOf(rows: nat, numThreads: nat, r: int): (n: nat)
    requires numThreads >= 1 && 0 <= r < rows
    ensures InBand(rows, numThreads, n, r)
  {
    var p := RowsPerThread(rows, numThreads);
    var last := numThreads - 1;
    BandsAreContiguous(rows, numThreads, last);
    if p == 0 then
      last
    else
      var q := r / p;
      DivBounds(r, p);
      BandStartIsProduct(rows, numThreads, q);
      if q >= last then
        BandStartMonotone(rows, numThreads, last, q);
        last
      else
        q
  }

  /** Every row of the grid lies in some band, and only rows of the grid do. */
  lemma BandsCoverRows(rows: nat, numThreads: nat, r: int)
    requires numThreads >= 1
    ensures 0 <= r < rows <==> exists n: nat :: InBand(rows, numThreads, n, r)
  {
    if 0 <= r < rows {
      var n := BandOf(rows, numThreads, r);
      assert InBand(rows, numThreads, n, r);
    }
    if n: nat :| InBand(rows, numThreads, n, r) {
      BandsAreContiguous(rows, numThreads, n);
    }
  }

  /** A 726-row grid over 8 threads: bands of 90 rows, the last one 96 rows tall. */
  lemma HeadlessBands()
    ensures RowsPerThread(726, 8) == 90
    ensures BandStart(726, 8, 7) == 630 && BandEnd(726, 8, 7) == 726
    ensures BandStart(726, 8, 6) == 540 && BandEnd(726, 8, 6) == 630
  {
  }

  /** A 768-row grid over 8 threads: eight equal bands of 96 rows. */
  lemma WindowedBands()
    ensures RowsPerThread(768, 8) == 96
    ensures forall n :: 0 <= n < 8 ==> BandEnd(768, 8, n) - BandStart(768, 8, n) == 96
  {
    BandStartIsProduct(768, 8, 7);
  }
}
