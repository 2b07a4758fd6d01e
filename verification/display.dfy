/**
  The colour-mapping pass of both CPU variants: a row band per thread in the
  threaded variant, a tile per task in the task-parallel one. Each reads the
  freshly written buffer and writes only the display cells of its own part.
  */
module Display {
  import opened Grid
  import opened Palette
  import opened Partition

  /** Rows `[rowStart, rowEnd)` of the display take the colours of `background`. */
  method NumToColorMapping(background: Board, display: Screen, numCols: nat, rowStart: int, rowEnd: int)
    returns (display': Screen)
    requires IsGrid(background, |background|, numCols) && IsGrid(display, |background|, numCols)
    requires 0 <= rowStart && rowEnd <= |background|
    requires RegionCellsIn(background, |background|, numCols, Region(rowStart, rowEnd, 0, numCols))
    ensures display' == Recolour(background, display, |background|, numCols, Region(rowStart, rowEnd, 0, numCols))
  {
    display' := ColorMappingTile(background, display, |background|, numCols, Region(rowStart, rowEnd, 0, numCols));
  }

  /**
    The colour functor applied to one tile: dead cells become black, a
    species `s` becomes table entry `s`; display cells outside the tile and
    the buffer are left alone.
    */
  method ColorMappingTile(background: Board, display: Screen, rows: nat, cols: nat, t: Region)
    returns (display': Screen)
    requires IsGrid(background, rows, cols) && IsGrid(display, rows, cols)
    requires Within(t, rows, cols) && RegionCellsIn(background, rows, cols, t)
    ensures display' == Recolour(background, display, rows, cols, t)
  {
    display' := display;
    var row := t.rowBegin;
    while row < t.rowEnd
      invariant t.rowBegin <= row && (row <= t.rowEnd || row == t.rowBegin)
      invariant IsGrid(display', rows, cols)
      invariant forall a, b :: InBounds(rows, cols, a, b) ==>
                  display'[a][b] == if InRegion(t.(rowEnd := row), a, b) then ColourOf(background[a][b])
                                    else display[a][b]
    {
      var col := t.colBegin;
      while col < t.colEnd
        invariant t.colBegin <= col && (col <= t.colEnd || col == t.colBegin)
        invariant IsGrid(display', rows, cols)
        invariant forall a, b :: InBounds(rows, cols, a, b) ==>
                    display'[a][b] == if InRegion(t.(rowEnd := row), a, b) || (a == row && t.colBegin <= b < col)
                                      then ColourOf(background[a][b])
                                      else display[a][b]
      {
        assert InRegion(t, row, col);
        var p;
        if background[row][col] == DeadId {
          p := Pixel(0, 0, 0);
        } else {
          p := ColorMapping[background[row][col]];
        }
        display' := display'[row := display'[row][col := p]];
        col := col + 1;
      }
      row := row + 1;
    }
    GridExt(display', Recolour(background, display, rows, cols, t), rows, cols);
  }

  /** The threaded driver's colour pass: one band per thread, in thread order. */
  method MapBands(background: Board, display: Screen, rows: nat, cols: nat, numThreads: int)
    returns (display': Screen)
    requires IsGrid(background, rows, cols) && IsGrid(display, rows, cols)
    requires CellsIn(background, rows, cols, |ColorMapping|)
    requires numThreads >= 1
    ensures display' == ColourGrid(background, rows, cols)
  {
    var rowsPerThread := rows / numThreads;
    display' := display;
    var n := 0;
    while n < numThreads
      invariant 0 <= n <= numThreads
      invariant IsGrid(display', rows, cols)
      invariant forall a, b :: InBounds(rows, cols, a, b) ==>
                  display'[a][b] == if a < (if n == numThreads then rows else BandStart(rows, numThreads, n))
                                    then ColourOf(background[a][b])
                                    else display[a][b]
    {
      BandsAreContiguous(rows, numThreads, n);
      var rowStart := n * rowsPerThread;
      var rowEnd := if n == numThreads - 1 then rows else rowStart + rowsPerThread;
      display' := NumToColorMapping(background, display', cols, rowStart, rowEnd);
      n := n + 1;
    }
    GridExt(display', ColourGrid(background, rows, cols), rows, cols);
  }

  /**
    The task-parallel colour pass, one tile after another in the order given:
    tiles that cover the grid colour all of it, in any order.
    */
  method MapTiles(background: Board, display: Screen, rows: nat, cols: nat, tiles: seq<Region>)
    returns (display': Screen)
    requires IsGrid(background, rows, cols) && IsGrid(display, rows, cols)
    requires CellsIn(background, rows, cols, |ColorMapping|)
    requires forall k :: 0 <= k < |tiles| ==> Within(tiles[k], rows, cols)
    ensures IsGrid(display', rows, cols)
    ensures forall a, b :: InBounds(rows, cols, a, b) ==>
              display'[a][b] == if exists k :: 0 <= k < |tiles| && InRegion(tiles[k], a, b)
                                then ColourOf(background[a][b])
                                else display[a][b]
    ensures Covers(tiles, rows, cols) ==> display' == ColourGrid(background, rows, cols)
  {
    display' := display;
    var n := 0;
    while n < |tiles|
      invariant 0 <= n <= |tiles|
      invariant IsGrid(display', rows, cols)
      invariant forall a, b :: InBounds(rows, cols, a, b) ==>
                  display'[a][b] == if exists k :: 0 <= k < n && InRegion(tiles[k], a, b)
                                    then ColourOf(background[a][b])
                                    else display[a][b]
    {
      display' := ColorMappingTile(background, display', rows, cols, tiles[n]);
      n := n + 1;
    }
    if Covers(tiles, rows, cols) {
      GridExt(display', ColourGrid(background, rows, cols), rows, cols);
    }
  }
}
