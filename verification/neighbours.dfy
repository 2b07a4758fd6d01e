/**
  The two loops every CPU variant runs for one cell: the walk over the eight
  neighbour offsets, and the scan of the species tally for exactly-3 entries.
  Both are written the same way in the threaded and the tiled variant.
  */
module Neighbours {
  import opened Grid
  import opened Rule

  /**
    Walks the eight offsets of (row, col), skipping those that leave the grid.
    A live cell counts the neighbours of its own species; a dead cell tallies
    its live neighbours per species. Every read is inside the grid, and every
    tally index is a species id below `MaxNumSpecies`.
    */
  method CountNeighbours(fg: Board, rows: nat, cols: nat, row: int, col: int)
    returns (neighborCount: nat, speciesCounter: seq<nat>)
    requires IsGrid(fg, rows, cols) && InBounds(rows, cols, row, col)
    requires CellsIn(fg, rows, cols, MaxNumSpecies)
    ensures fg[row][col] != DeadId ==>
              neighborCount == NeighbourCount(fg, rows, cols, row, col, fg[row][col])
              && speciesCounter == seq(MaxNumSpecies, _ => 0)
    ensures fg[row][col] == DeadId ==>
              neighborCount == 0 && speciesCounter == Tally(fg, rows, cols, row, col)
  {
    var cellStatus := fg[row][col];
    neighborCount := 0;
    speciesCounter := seq(MaxNumSpecies, _ => 0);
    var i := 0;
    while i < 8
      invariant 0 <= i <= 8
      invariant |speciesCounter| == MaxNumSpecies
      invariant cellStatus != DeadId ==>
                  neighborCount == CountFrom(fg, rows, cols, row, col, cellStatus, i)
                  && speciesCounter == seq(MaxNumSpecies, _ => 0)
      invariant cellStatus == DeadId ==> neighborCount == 0
      invariant cellStatus == DeadId ==>
                  forall s :: 0 <= s < MaxNumSpecies ==>
                    speciesCounter[s] == CountFrom(fg, rows, cols, row, col, s, i)
    {
      var testRow := row + Offsets[i].0;
      var testCol := col + Offsets[i].1;
      if testRow >= 0 && testRow < rows && testCol >= 0 && testCol < cols {
        if cellStatus != DeadId && fg[testRow][testCol] == cellStatus {
          neighborCount := neighborCount + 1;
        } else if cellStatus == DeadId {
          var neighbor := fg[testRow][testCol];
          if neighbor != DeadId {
            assert IsCell(neighbor, MaxNumSpecies);
            speciesCounter := speciesCounter[neighbor := speciesCounter[neighbor] + 1];
          }
        }
      }
      i := i + 1;
    }
    if cellStatus == DeadId {
      assert speciesCounter == Tally(fg, rows, cols, row, col);
    }
  }

  /**
    Scans species ids `0 .. numSpecies - 1` in increasing order and collects
    those whose tally is exactly 3. At most one id is added per step, so the
    list never outgrows the `MaxNumSpecies` slots of the source's array.
    */
  method SelectCandidates(speciesCounter: seq<nat>, numSpecies: int) returns (candidates: seq<int>)
    requires |speciesCounter| == MaxNumSpecies && numSpecies <= MaxNumSpecies
    ensures candidates == CandidatesIn(speciesCounter, numSpecies)
    ensures |candidates| <= MaxNumSpecies
  {
    candidates := [];
    var s := 0;
    while s < numSpecies
      invariant s == 0 || s <= numSpecies
      invariant candidates == CandidatesIn(speciesCounter, s)
    {
      if speciesCounter[s] == 3 {
        candidates := candidates + [s];
      }
      s := s + 1;
    }
    assert |candidates| == 0 || |candidates| <= s <= MaxNumSpecies;
  }
}
