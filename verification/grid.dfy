/**
  Cell values, grid shape, rectangular regions and the Moore-neighbourhood
  offset table shared by every variant of the simulation.
  */
module Grid {

  /** The sentinel stored in a cell that no species occupies. */
  const DeadId: int := -1

  /** Size of the per-species tally and of the colour table. */
  const MaxNumSpecies: int := 10

  /** One generation buffer: row-major species ids. */
  type Board = seq<seq<int>>

  /** `g` is a `rows` x `cols` rectangle. */
  predicate IsGrid<T>(g: seq<seq<T>>, rows: int, cols: int) {
    |g| == rows && forall i :: 0 <= i < |g| ==> |g[i]| == cols
  }

  predicate InBounds(rows: int, cols: int, r: int, c: int) {
    0 <= r < rows && 0 <= c < cols
  }

  /** A cell value is either dead or a species id below `numSpecies`. */
  predicate IsCell(v: int, numSpecies: int) {
    v == DeadId || 0 <= v < numSpecies
  }

  ghost predicate CellsIn(g: Board, rows: int, cols: int, numSpecies: int)
    requires IsGrid(g, rows, cols)
  {
    forall i, j :: InBounds(rows, cols, i, j) ==> IsCell(g[i][j], numSpecies)
  }

  /** The dead sentinel is never a species id, whatever the species count. */
  lemma DeadIsNoSpecies(numSpecies: int)
    ensures !(0 <= DeadId < numSpecies)
    ensures forall v :: IsCell(v, numSpecies) && v != DeadId ==> 0 <= v < numSpecies
  {
  }

  /** Two grids of the same shape that agree cell by cell are equal. */
  lemma GridExt<T>(a: seq<seq<T>>, b: seq<seq<T>>, rows: int, cols: int)
    requires IsGrid(a, rows, cols) && IsGrid(b, rows, cols)
    requires forall i, j :: InBounds(rows, cols, i, j) ==> a[i][j] == b[i][j]
    ensures a == b
  {
    forall i | 0 <= i < rows
      ensures a[i] == b[i]
    {
      assert forall j :: 0 <= j < cols ==> a[i][j] == b[i][j];
    }
  }

  // ---------------------------------------------------------------------------
  // Regions: a row band or a tile, half-open in both directions
  // ---------------------------------------------------------------------------

  /** The cells `[rowBegin, rowEnd) x [colBegin, colEnd)`, as a `blocked_range2d` describes them. */
  datatype Region = Region(rowBegin: int, rowEnd: int, colBegin: int, colEnd: int)

  predicate InRegion(t: Region, r: int, c: int) {
    t.rowBegin <= r < t.rowEnd && t.colBegin <= c < t.colEnd
  }

  /** Every index the region names lies inside a `rows` x `cols` grid. */
  predicate Within(t: Region, rows: int, cols: int) {
    0 <= t.rowBegin && t.rowEnd <= rows && 0 <= t.colBegin && t.colEnd <= cols
  }

  /** Every cell of the grid lies in some region of `ts`. */
  ghost predicate Covers(ts: seq<Region>, rows: int, cols: int) {
    forall i, j :: InBounds(rows, cols, i, j) ==> exists k :: 0 <= k < |ts| && InRegion(ts[k], i, j)
  }

  /** No cell lies in two different regions of `ts`. */
  ghost predicate Disjoint(ts: seq<Region>) {
    forall k, l, i, j :: 0 <= k < l < |ts| && InRegion(ts[k], i, j) ==> !InRegion(ts[l], i, j)
  }

  /** The order in which a row-by-row, column-by-column loop visits the cells of row `r` in `[c0, c1)`. */
  function RowCells(r: int, c0: int, c1: int): seq<(int, int)>
    decreases c1 - c0
  {
    if c1 <= c0 then [] else RowCells(r, c0, c1 - 1) + [(r, c1 - 1)]
  }

  /** The order in which a nested row/column loop visits the cells of a region. */
  function Cells(t: Region): seq<(int, int)>
    decreases t.rowEnd - t.rowBegin
  {
    if t.rowEnd <= t.rowBegin then []
    else Cells(t.(rowEnd := t.rowEnd - 1)) + RowCells(t.rowEnd - 1, t.colBegin, t.colEnd)
  }

  lemma {:induction false} RowCellsExactlyOnce(r: int, c0: int, c1: int)
    ensures forall a, b :: (a, b) in RowCells(r, c0, c1) <==> a == r && c0 <= b < c1
    ensures forall p, q :: 0 <= p < q < |RowCells(r, c0, c1)| ==>
                             RowCells(r, c0, c1)[p].1 < RowCells(r, c0, c1)[q].1
    decreases c1 - c0
  {
    if c0 < c1 {
      RowCellsExactlyOnce(r, c0, c1 - 1);
    }
  }

  /**
    A nested loop over a region visits exactly the cells of the region, and
    visits each of them once.
    */
  lemma {:induction false} CellsExactlyOnce(t: Region)
    ensures forall a, b :: (a, b) in Cells(t) <==> InRegion(t, a, b)
    ensures forall p, q :: 0 <= p < q < |Cells(t)| ==> Cells(t)[p] != Cells(t)[q]
    decreases t.rowEnd - t.rowBegin
  {
    if t.rowBegin < t.rowEnd {
      var prefix := t.(rowEnd := t.rowEnd - 1);
      var last := RowCells(t.rowEnd - 1, t.colBegin, t.colEnd);
      CellsExactlyOnce(prefix);
      RowCellsExactlyOnce(t.rowEnd - 1, t.colBegin, t.colEnd);
      assert Cells(t) == Cells(prefix) + last;
      forall p, q | 0 <= p < q < |Cells(t)|
        ensures Cells(t)[p] != Cells(t)[q]
      {
        if q < |Cells(prefix)| {
          assert Cells(t)[p] == Cells(prefix)[p] && Cells(t)[q] == Cells(prefix)[q];
        } else if p < |Cells(prefix)| {
          // the earlier cell lies in a row above the last one
          var x, y := Cells(t)[p], Cells(t)[q];
          assert (x.0, x.1) in Cells(prefix);
          assert y == last[q - |Cells(prefix)|] && (y.0, y.1) in last;
          assert InRegion(prefix, x.0, x.1);
        } else {
          // both in the last row: their columns increase
          assert Cells(t)[p] == last[p - |Cells(prefix)|];
          assert Cells(t)[q] == last[q - |Cells(prefix)|];
        }
      }
    }
  }

  // ---------------------------------------------------------------------------
  // The Moore neighbourhood
  // ---------------------------------------------------------------------------

  /** Up, down, left, right, then the four diagonals, in the source's order. */
  const Offsets: seq<(int, int)> :=
    [(-1, 0), (1, 0), (0, -1), (0, 1), (-1, -1), (-1, 1), (1, -1), (1, 1)]

  /** The eight offsets of the Moore neighbourhood, as a set. */
  ghost function MooreNeighbourhood(): set<(int, int)> {
    set dr, dc | -1 <= dr <= 1 && -1 <= dc <= 1 && (dr, dc) != (0, 0) :: (dr, dc)
  }

  /**
    The table has eight pairwise distinct entries with components in {-1, 0, 1},
    none of them (0, 0): it lists the Moore neighbourhood exactly once each and
    never the cell itself.
    */
  lemma OffsetsAreMooreNeighbourhood()
    ensures |Offsets| == 8
    ensures forall k :: 0 <= k < |Offsets| ==>
              -1 <= Offsets[k].0 <= 1 && -1 <= Offsets[k].1 <= 1 && Offsets[k] != (0, 0)
    ensures forall k, l :: 0 <= k < l < |Offsets| ==> Offsets[k] != Offsets[l]
    ensures (set k | 0 <= k < |Offsets| :: Offsets[k]) == MooreNeighbourhood()
  {
    var s := set k | 0 <= k < |Offsets| :: Offsets[k];
    forall o | o in MooreNeighbourhood()
      ensures o in s
    {
      var (dr, dc) := o;
      if dr == -1 && dc == 0 { assert Offsets[0] == o; }
      else if dr == 1 && dc == 0 { assert Offsets[1] == o; }
      else if dr == 0 && dc == -1 { assert Offsets[2] == o; }
      else if dr == 0 && dc == 1 { assert Offsets[3] == o; }
      else if dr == -1 && dc == -1 { assert Offsets[4] == o; }
      else if dr == -1 && dc == 1 { assert Offsets[5] == o; }
      else if dr == 1 && dc == -1 { assert Offsets[6] == o; }
      else { assert Offsets[7] == o; }
    }
    forall o | o in s
      ensures o in MooreNeighbourhood()
    {
      var k :| 0 <= k < |Offsets| && Offsets[k] == o;
      assert o.0 == Offsets[k].0 && o.1 == Offsets[k].1;
    }
  }
}
