/**
  The species colour table. Channels are stored as integer thousandths of
  full intensity: the source's 0.647 is 647 here and 1.0 is 1000.
  */
module Palette {
  import opened Grid

  datatype Pixel = Pixel(r: int, g: int, b: int)

  /** The colour of a dead cell. */
  const Black: Pixel := Pixel(0, 0, 0)

  /** Red, green, blue, yellow, cyan, magenta, orange, purple, pink, white. */
  const ColorMapping: seq<Pixel> := [
    Pixel(1000, 0, 0),
    Pixel(0, 1000, 0),
    Pixel(0, 0, 1000),
    Pixel(1000, 1000, 0),
    Pixel(0, 1000, 1000),
    Pixel(1000, 0, 1000),
    Pixel(1000, 647, 0),
    Pixel(501, 0, 501),
    Pixel(1000, 752, 796),
    Pixel(1000, 1000, 1000)
  ]

  /** The display buffer: one colour per cell. */
  type Screen = seq<seq<Pixel>>

  predicate InUnitRange(p: Pixel) {
    0 <= p.r <= 1000 && 0 <= p.g <= 1000 && 0 <= p.b <= 1000
  }

  /** The colour a cell value is drawn in: black when dead, the table entry of its species otherwise. */
  function ColourOf(v: int): (p: Pixel)
    requires IsCell(v, |ColorMapping|)
  {
    if v == DeadId then Black else ColorMapping[v]
  }

  /**
    The table has one entry per species id 0..9, each channel in [0, 1], no
    entry black, and no two entries equal.
    */
  lemma ColorMappingWellFormed()
    ensures |ColorMapping| == MaxNumSpecies
    ensures forall s :: 0 <= s < |ColorMapping| ==> InUnitRange(ColorMapping[s]) && ColorMapping[s] != Black
    ensures forall s, t :: 0 <= s < t < |ColorMapping| ==> ColorMapping[s] != ColorMapping[t]
  {
  }

  /**
    A cell is drawn black exactly when it is dead, and two cell values share
    a colour only when they are equal, so the display tells every species and
    the dead state apart.
    */
  lemma ColourOfIsFaithful(v: int, w: int)
    requires IsCell(v, |ColorMapping|) && IsCell(w, |ColorMapping|)
    ensures ColourOf(v) == Black <==> v == DeadId
    ensures ColourOf(v) == ColourOf(w) <==> v == w
    ensures InUnitRange(ColourOf(v))
  {
    ColorMappingWellFormed();
    if v != DeadId && w != DeadId && v != w {
      if v < w {
        assert ColorMapping[v] != ColorMapping[w];
      } else {
        assert ColorMapping[w] != ColorMapping[v];
      }
    }
  }

  /** The colours of a whole buffer. */
  function ColourGrid(bg: Board, rows: nat, cols: nat): (d: Screen)
    requires IsGrid(bg, rows, cols) && CellsIn(bg, rows, cols, |ColorMapping|)
    ensures IsGrid(d, rows, cols)
    ensures forall i, j :: InBounds(rows, cols, i, j) ==> d[i][j] == ColourOf(bg[i][j])
  {
    seq(rows, i requires 0 <= i < rows => seq(cols, j requires 0 <= j < cols => ColourOf(bg[i][j])))
  }

  /** The species cells of a region are valid indices into the table. */
  ghost predicate RegionCellsIn(bg: Board, rows: nat, cols: nat, t: Region)
    requires IsGrid(bg, rows, cols)
  {
    forall i, j :: InBounds(rows, cols, i, j) && InRegion(t, i, j) ==> IsCell(bg[i][j], |ColorMapping|)
  }

  /** The display with the cells of region `t` recoloured from `bg` and the rest left as they were. */
  function Recolour(bg: Board, d: Screen, rows: nat, cols: nat, t: Region): (d': Screen)
    requires IsGrid(bg, rows, cols) && IsGrid(d, rows, cols) && RegionCellsIn(bg, rows, cols, t)
    ensures IsGrid(d', rows, cols)
    ensures forall i, j :: InBounds(rows, cols, i, j) ==>
              d'[i][j] == if InRegion(t, i, j) then ColourOf(bg[i][j]) else d[i][j]
  {
    seq(rows, i requires 0 <= i < rows =>
      seq(cols, j requires 0 <= j < cols => if InRegion(t, i, j) then ColourOf(bg[i][j]) else d[i][j]))
  }

  /** Recolouring a region a second time changes nothing. */
  lemma RecolourIdempotent(bg: Board, d: Screen, rows: nat, cols: nat, t: Region)
    requires IsGrid(bg, rows, cols) && IsGrid(d, rows, cols) && RegionCellsIn(bg, rows, cols, t)
    ensures var once := Recolour(bg, d, rows, cols, t);
            Recolour(bg, once, rows, cols, t) == once
  {
    var once := Recolour(bg, d, rows, cols, t);
    GridExt(Recolour(bg, once, rows, cols, t), once, rows, cols);
  }

  /** Recolouring two regions gives the same display in either order. */
  lemma RecolourCommutes(bg: Board, d: Screen, rows: nat, cols: nat, t1: Region, t2: Region)
    requires IsGrid(bg, rows, cols) && IsGrid(d, rows, cols)
    requires RegionCellsIn(bg, rows, cols, t1) && RegionCellsIn(bg, rows, cols, t2)
    ensures var a := Recolour(bg, d, rows, cols, t1);
            var b := Recolour(bg, d, rows, cols, t2);
            Recolour(bg, a, rows, cols, t2) == Recolour(bg, b, rows, cols, t1)
  {
    var a := Recolour(bg, d, rows, cols, t1);
    var b := Recolour(bg, d, rows, cols, t2);
    GridExt(Recolour(bg, a, rows, cols, t2), Recolour(bg, b, rows, cols, t1), rows, cols);
  }
}
