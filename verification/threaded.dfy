/**
  The thread-per-band variant: `check` evaluates one cell and writes the
  outcome of a dead cell itself, `decide` walks a band of rows and writes the
  outcome of the live cells, and the driver hands one band to each thread.
  Buffers are values here: a call takes the background it may write and
  returns the new one, so the foreground cannot change.
  */
module ThreadedUpdate {
  import opened Grid
  import opened Rule
  import opened Neighbours
  import opened Partition

  /** The species count is a compile-time constant in this variant. */
  const NumSpecies: int := 10

  /**
    One cell. For a dead cell it writes the birth outcome into the background
    and returns -1; for a live cell it writes nothing and returns the number
    of same-species neighbours. `written` lists the cells it wrote.
    */
  method Check(fg: Board, bg: Board, numRows: nat, numCols: nat, row: int, col: int, k: nat)
    returns (count: int, bg': Board, ghost written: seq<(int, int)>)
    requires IsGrid(fg, numRows, numCols) && IsGrid(bg, numRows, numCols)
    requires CellsIn(fg, numRows, numCols, NumSpecies)
    requires InBounds(numRows, numCols, row, col)
    ensures IsGrid(bg', numRows, numCols)
    ensures fg[row][col] == DeadId ==>
              && count == -1
              && bg' == bg[row := bg[row][col := NextCell(fg, numRows, numCols, row, col, NumSpecies, k)]]
              && written == [(row, col)]
    ensures fg[row][col] != DeadId ==>
              && count == NeighbourCount(fg, numRows, numCols, row, col, fg[row][col])
              && 0 <= count <= 8
              && bg' == bg && written == []
  {
    var cellStatus := fg[row][col];
    var isDead := cellStatus == DeadId;
    var neighborCount, speciesCounter := CountNeighbours(fg, numRows, numCols, row, col);
    if isDead {
      var candidates := SelectCandidates(speciesCounter, NumSpecies);
      var v := if |candidates| > 0 then candidates[k % |candidates|] else DeadId;
      bg' := bg[row := bg[row][col := v]];
      written := [(row, col)];
      return -1, bg', written;
    }
    NeighbourCountBound(fg, numRows, numCols, row, col, cellStatus);
    count, bg', written := neighborCount, bg, [];
  }

  /**
    One iteration of the inner loop of `decide`: `Check` writes a dead cell,
    the loop body writes a live one, so the cell is written exactly once, with
    its next value.
    */
  method DecideCell(fg: Board, bg: Board, numRows: nat, numCols: nat, i: int, j: int, k: nat)
    returns (bg': Board, ghost written: seq<(int, int)>)
    requires IsGrid(fg, numRows, numCols) && IsGrid(bg, numRows, numCols)
    requires CellsIn(fg, numRows, numCols, NumSpecies)
    requires InBounds(numRows, numCols, i, j)
    ensures bg' == bg[i := bg[i][j := NextCell(fg, numRows, numCols, i, j, NumSpecies, k)]]
    ensures written == [(i, j)]
  {
    var count;
    count, bg', written := Check(fg, bg, numRows, numCols, i, j, k);
    if count != -1 && (count < 2 || count > 3) && fg[i][j] != DeadId {
      bg' := bg'[i := bg'[i][j := DeadId]];
      written := written + [(i, j)];
    } else if count != -1 {
      bg' := bg'[i := bg'[i][j := fg[i][j]]];
      written := written + [(i, j)];
    }
  }

  /**
    The inner loop of `decide` for row `i`: its cells get their next value,
    each written once from left to right, and no other cell changes.
    */
  method DecideRow(fg: Board, bg: Board, numRows: nat, numCols: nat, i: int, oracle: Oracle)
    returns (bg': Board, ghost writes: seq<(int, int)>)
    requires IsGrid(fg, numRows, numCols) && IsGrid(bg, numRows, numCols)
    requires CellsIn(fg, numRows, numCols, NumSpecies)
    requires 0 <= i < numRows
    ensures IsGrid(bg', numRows, numCols)
    ensures forall a, b :: InBounds(numRows, numCols, a, b) ==>
              bg'[a][b] == if a == i then NextCell(fg, numRows, numCols, a, b, NumSpecies, oracle(a, b))
                           else bg[a][b]
    ensures writes == RowCells(i, 0, numCols)
  {
    bg' := bg;
    writes := [];
    var j := 0;
    while j < numCols
      invariant 0 <= j <= numCols
      invariant IsGrid(bg', numRows, numCols)
      invariant forall a, b :: InBounds(numRows, numCols, a, b) ==>
                  bg'[a][b] == if a == i && b < j
                               then NextCell(fg, numRows, numCols, a, b, NumSpecies, oracle(a, b))
                               else bg[a][b]
      invariant writes == RowCells(i, 0, j)
    {
      ghost var w;
      ghost var before := bg';
      bg', w := DecideCell(fg, bg', numRows, numCols, i, j, oracle(i, j));
      assert forall a, b :: InBounds(numRows, numCols, a, b) ==>
               bg'[a][b] == if a == i && b == j then NextCell(fg, numRows, numCols, a, b, NumSpecies, oracle(a, b))
                            else before[a][b];
      writes := writes + w;
      j := j + 1;
    }
  }

  /**
    The band `[rowStart, rowEnd)`: every cell of it gets its next value, every
    other background cell is left alone, and `writes` visits each cell of the
    band once, in row-major order (dead cells written by `Check`, live ones
    here).
    */
  method Decide(fg: Board, bg: Board, numRows: nat, numCols: nat, rowStart: int, rowEnd: int,
                oracle: Oracle)
    returns (bg': Board, ghost writes: seq<(int, int)>)
    requires IsGrid(fg, numRows, numCols) && IsGrid(bg, numRows, numCols)
    requires CellsIn(fg, numRows, numCols, NumSpecies)
    requires 0 <= rowStart && rowEnd <= numRows
    ensures bg' == UpdateRegion(fg, bg, numRows, numCols, NumSpecies, Region(rowStart, rowEnd, 0, numCols), oracle)
    ensures writes == Cells(Region(rowStart, rowEnd, 0, numCols))
  {
    bg' := bg;
    writes := [];
    var i := rowStart;
    while i < rowEnd
      invariant rowStart <= i && (i <= rowEnd || i == rowStart)
      invariant IsGrid(bg', numRows, numCols)
      invariant forall a, b :: InBounds(numRows, numCols, a, b) ==>
                  bg'[a][b] == if rowStart <= a < i then NextCell(fg, numRows, numCols, a, b, NumSpecies, oracle(a, b))
                               else bg[a][b]
      invariant writes == Cells(Region(rowStart, i, 0, numCols))
    {
      ghost var rowWrites;
      bg', rowWrites := DecideRow(fg, bg', numRows, numCols, i, oracle);
      writes := writes + rowWrites;
      i := i + 1;
    }
    GridExt(bg', UpdateRegion(fg, bg, numRows, numCols, NumSpecies, Region(rowStart, rowEnd, 0, numCols), oracle),
            numRows, numCols);
  }

  /**
    One generation: thread `n` of `numThreads` runs `Decide` on band `n`; run
    one after the other, the bands leave the background equal to the whole
    next generation, whatever it held before.
    */
  method Generation(fg: Board, bg: Board, rows: nat, cols: nat, numThreads: int, oracle: Oracle)
    returns (next: Board)
    requires IsGrid(fg, rows, cols) && IsGrid(bg, rows, cols)
    requires CellsIn(fg, rows, cols, NumSpecies)
    requires numThreads >= 1
    ensures next == Step(fg, rows, cols, NumSpecies, oracle)
  {
    var rowsPerThread := rows / numThreads;
    next := bg;
    var n := 0;
    while n < numThreads
      invariant 0 <= n <= numThreads
      invariant IsGrid(next, rows, cols)
      invariant forall a, b :: InBounds(rows, cols, a, b) ==>
                  next[a][b] == if a < (if n == numThreads then rows else BandStart(rows, numThreads, n))
                                then NextCell(fg, rows, cols, a, b, NumSpecies, oracle(a, b))
                                else bg[a][b]
    {
      BandsAreContiguous(rows, numThreads, n);
      var rowStart := n * rowsPerThread;
      var rowEnd := if n == numThreads - 1 then rows else rowStart + rowsPerThread;
      ghost var w;
      next, w := Decide(fg, next, rows, cols, rowStart, rowEnd, oracle);
      n := n + 1;
    }
    GridExt(next, Step(fg, rows, cols, NumSpecies, oracle), rows, cols);
  }
}
