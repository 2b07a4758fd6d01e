/**
  The task-parallel variant: one functor evaluates the rule for every cell of
  a tile, neighbour count and transition fused in one loop body, and a
  parallel-for applies it to tiles that cover the grid.
  */
module TiledUpdate {
  import opened Grid
  import opened Rule
  import opened Neighbours

  /**
    The fused loop body for one cell. Unlike the threaded variant, the dead
    cell without a qualifying species copies the foreground cell rather than
    writing the sentinel; that cell is dead, so the outcome is the same.
    */
  method EvaluateCell(fg: Board, rows: nat, cols: nat, numSpecies: int, row: int, col: int, k: nat)
    returns (v: int)
    requires IsGrid(fg, rows, cols) && InBounds(rows, cols, row, col)
    requires CellsIn(fg, rows, cols, MaxNumSpecies) && numSpecies <= MaxNumSpecies
    ensures v == NextCell(fg, rows, cols, row, col, numSpecies, k)
  {
    var cellStatus := fg[row][col];
    var isDead := cellStatus == DeadId;
    var neighborCount, speciesCounter := CountNeighbours(fg, rows, cols, row, col);
    if isDead {
      var candidates := SelectCandidates(speciesCounter, numSpecies);
      if |candidates| > 0 {
        v := candidates[k % |candidates|];
      } else {
        v := fg[row][col];
      }
    } else {
      if (neighborCount < 2 || neighborCount > 3) && fg[row][col] != DeadId {
        v := DeadId;
      } else {
        v := fg[row][col];
      }
    }
  }

  /**
    The inner loop of the functor: row `row` of tile `t`, left to right. Its
    cells receive their next value, each once; every other cell keeps its
    old one.
    */
  method CheckRow(fg: Board, bg: Board, rows: nat, cols: nat, numSpecies: int, t: Region, row: int,
                  oracle: Oracle)
    returns (bg': Board, ghost writes: seq<(int, int)>)
    requires IsGrid(fg, rows, cols) && IsGrid(bg, rows, cols)
    requires CellsIn(fg, rows, cols, MaxNumSpecies) && numSpecies <= MaxNumSpecies
    requires Within(t, rows, cols) && t.rowBegin <= row < t.rowEnd
    ensures IsGrid(bg', rows, cols)
    ensures forall a, b :: InBounds(rows, cols, a, b) ==>
              bg'[a][b] == if a == row && t.colBegin <= b < t.colEnd
                           then NextCell(fg, rows, cols, a, b, numSpecies, oracle(a, b))
                           else bg[a][b]
    ensures writes == RowCells(row, t.colBegin, t.colEnd)
  {
    bg' := bg;
    writes := [];
    var col := t.colBegin;
    while col < t.colEnd
      invariant t.colBegin <= col && (col <= t.colEnd || col == t.colBegin)
      invariant IsGrid(bg', rows, cols)
      invariant forall a, b :: InBounds(rows, cols, a, b) ==>
                  bg'[a][b] == if a == row && t.colBegin <= b < col
                               then NextCell(fg, rows, cols, a, b, numSpecies, oracle(a, b))
                               else bg[a][b]
      invariant writes == RowCells(row, t.colBegin, col)
    {
      var v := EvaluateCell(fg, rows, cols, numSpecies, row, col, oracle(row, col));
      bg' := bg'[row := bg'[row][col := v]];
      writes := writes + [(row, col)];
      col := col + 1;
    }
  }

  /**
    The functor applied to one tile: exactly the background cells of the tile
    receive their next value, each once and in row-major order; `rows` and
    `cols` are the grid's fixed height and width.
    */
  method CheckArray(fg: Board, bg: Board, rows: nat, cols: nat, numSpecies: int, t: Region,
                    oracle: Oracle)
    returns (bg': Board, ghost writes: seq<(int, int)>)
    requires IsGrid(fg, rows, cols) && IsGrid(bg, rows, cols)
    requires CellsIn(fg, rows, cols, MaxNumSpecies) && numSpecies <= MaxNumSpecies
    requires Within(t, rows, cols)
    ensures bg' == UpdateRegion(fg, bg, rows, cols, numSpecies, t, oracle)
    ensures writes == Cells(t)
  {
    bg' := bg;
    writes := [];
    var row := t.rowBegin;
    while row < t.rowEnd
      invariant t.rowBegin <= row && (row <= t.rowEnd || row == t.rowBegin)
      invariant IsGrid(bg', rows, cols)
      invariant forall a, b :: InBounds(rows, cols, a, b) ==>
                  bg'[a][b] == if t.rowBegin <= a < row && t.colBegin <= b < t.colEnd
                               then NextCell(fg, rows, cols, a, b, numSpecies, oracle(a, b))
                               else bg[a][b]
      invariant writes == Cells(t.(rowEnd := row))
    {
      ghost var rowWrites;
      bg', rowWrites := CheckRow(fg, bg', rows, cols, numSpecies, t, row, oracle);
      writes := writes + rowWrites;
      row := row + 1;
    }
    assert t.(rowEnd := row) == t || t.rowEnd <= t.rowBegin;
    GridExt(bg', UpdateRegion(fg, bg, rows, cols, numSpecies, t, oracle), rows, cols);
  }

  /**
    The parallel-for, run one tile after another in the order given. A cell
    some tile covers gets its next value, any other cell keeps its old one;
    so tiles that cover the grid produce the whole next generation in any
    order, overlapping or not.
    */
  method ApplyTiles(fg: Board, bg: Board, rows: nat, cols: nat, numSpecies: int, tiles: seq<Region>,
                    oracle: Oracle)
    returns (bg': Board)
    requires IsGrid(fg, rows, cols) && IsGrid(bg, rows, cols)
    requires CellsIn(fg, rows, cols, MaxNumSpecies) && numSpecies <= MaxNumSpecies
    requires forall k :: 0 <= k < |tiles| ==> Within(tiles[k], rows, cols)
    ensures IsGrid(bg', rows, cols)
    ensures forall a, b :: InBounds(rows, cols, a, b) ==>
              bg'[a][b] == if exists k :: 0 <= k < |tiles| && InRegion(tiles[k], a, b)
                           then NextCell(fg, rows, cols, a, b, numSpecies, oracle(a, b))
                           else bg[a][b]
    ensures Covers(tiles, rows, cols) ==> bg' == Step(fg, rows, cols, numSpecies, oracle)
  {
    bg' := bg;
    var n := 0;
    while n < |tiles|
      invariant 0 <= n <= |tiles|
      invariant IsGrid(bg', rows, cols)
      invariant forall a, b :: InBounds(rows, cols, a, b) ==>
                  bg'[a][b] == if exists k :: 0 <= k < n && InRegion(tiles[k], a, b)
                               then NextCell(fg, rows, cols, a, b, numSpecies, oracle(a, b))
                               else bg[a][b]
    {
      ghost var w;
      bg', w := CheckArray(fg, bg', rows, cols, numSpecies, tiles[n], oracle);
      n := n + 1;
    }
    if Covers(tiles, rows, cols) {
      GridExt(bg', Step(fg, rows, cols, numSpecies, oracle), rows, cols);
    }
  }
}
