/**
  The generation loop: update every band (or tile) into the background,
  colour the background, then swap the two buffers. After each swap the
  foreground is the rule applied to the previous foreground.
  */
module Simulation {
  import opened Grid
  import opened Rule
  import opened Palette
  import ThreadedUpdate
  import TiledUpdate
  import Display

  /** One random draw per generation and cell. */
  type GenerationOracle = nat -> Oracle

  /**
    The foreground after `gens` generations from `g`. A population of dead
    cells and species below `numSpecies` stays one, however many generations
    run.
    */
  function Evolve(g: Board, rows: nat, cols: nat, numSpecies: int, oracle: GenerationOracle, gens: nat): (h: Board)
    requires IsGrid(g, rows, cols) && numSpecies <= MaxNumSpecies
    ensures IsGrid(h, rows, cols)
    ensures CellsIn(g, rows, cols, numSpecies) ==> CellsIn(h, rows, cols, numSpecies)
  {
    if gens == 0 then g
    else
      var prev := Evolve(g, rows, cols, numSpecies, oracle, gens - 1);
      StepKeepsCells(prev, rows, cols, numSpecies, oracle(gens - 1));
      Step(prev, rows, cols, numSpecies, oracle(gens - 1))
  }

  /** `StepPreservesCells`, stated for any buffer. */
  lemma StepKeepsCells(g: Board, rows: nat, cols: nat, numSpecies: int, oracle: Oracle)
    requires IsGrid(g, rows, cols) && numSpecies <= MaxNumSpecies
    ensures CellsIn(g, rows, cols, numSpecies) ==> CellsIn(Step(g, rows, cols, numSpecies, oracle), rows, cols, numSpecies)
  {
    if CellsIn(g, rows, cols, numSpecies) {
      StepPreservesCells(g, rows, cols, numSpecies, oracle);
    }
  }

  /** A display the size of the grid, all black, as a zero-initialised global is. */
  function BlankScreen(rows: nat, cols: nat): (d: Screen)
    ensures IsGrid(d, rows, cols)
  {
    seq(rows, _ => seq(cols, _ => Black))
  }

  /**
    One generation of the threaded driver: the band updates, the band
    colouring, then the swap. The new foreground is the next generation of
    the old one and the display shows it.
    */
  method Tick(foreground: Board, background: Board, display: Screen, rows: nat, cols: nat, numThreads: int,
              oracle: Oracle)
    returns (foreground': Board, background': Board, display': Screen)
    requires IsGrid(foreground, rows, cols) && IsGrid(background, rows, cols) && IsGrid(display, rows, cols)
    requires CellsIn(foreground, rows, cols, ThreadedUpdate.NumSpecies)
    requires numThreads >= 1
    ensures foreground' == Step(foreground, rows, cols, ThreadedUpdate.NumSpecies, oracle)
    ensures CellsIn(foreground', rows, cols, ThreadedUpdate.NumSpecies)
    ensures background' == foreground
    ensures display' == ColourGrid(foreground', rows, cols)
  {
    var next := ThreadedUpdate.Generation(foreground, background, rows, cols, numThreads, oracle);
    StepPreservesCells(foreground, rows, cols, ThreadedUpdate.NumSpecies, oracle);
    display' := Display.MapBands(next, display, rows, cols, numThreads);
    foreground', background' := next, foreground;
  }

  /**
    One generation of the task-parallel driver: the tile updates, the tile
    colouring, then the swap.
    */
  method TiledTick(foreground: Board, background: Board, display: Screen, rows: nat, cols: nat,
                   numSpecies: int, tiles: seq<Region>, oracle: Oracle)
    returns (foreground': Board, background': Board, display': Screen)
    requires IsGrid(foreground, rows, cols) && IsGrid(background, rows, cols) && IsGrid(display, rows, cols)
    requires numSpecies <= MaxNumSpecies && CellsIn(foreground, rows, cols, numSpecies)
    requires forall k :: 0 <= k < |tiles| ==> Within(tiles[k], rows, cols)
    requires Covers(tiles, rows, cols)
    ensures foreground' == Step(foreground, rows, cols, numSpecies, oracle)
    ensures CellsIn(foreground', rows, cols, numSpecies)
    ensures background' == foreground
    ensures display' == ColourGrid(foreground', rows, cols)
  {
    var next := TiledUpdate.ApplyTiles(foreground, background, rows, cols, numSpecies, tiles, oracle);
    StepPreservesCells(foreground, rows, cols, numSpecies, oracle);
    display' := Display.MapTiles(next, display, rows, cols, tiles);
    foreground', background' := next, foreground;
  }

  /**
    The threaded driver: both buffers start as the initial population, the
    display is coloured from it, then each of `gens` generations runs the
    band updates, the band colouring and the swap. The foreground ends as the
    rule applied `gens` times and the display shows it.
    */
  method Run(init: Board, rows: nat, cols: nat, numThreads: int, gens: nat, oracle: GenerationOracle)
    returns (foreground: Board, display: Screen)
    requires IsGrid(init, rows, cols) && CellsIn(init, rows, cols, ThreadedUpdate.NumSpecies)
    requires numThreads >= 1
    ensures foreground == Evolve(init, rows, cols, ThreadedUpdate.NumSpecies, oracle, gens)
    ensures CellsIn(foreground, rows, cols, ThreadedUpdate.NumSpecies)
    ensures display == ColourGrid(foreground, rows, cols)
  {
    foreground := init;
    var background := init;
    display := Display.MapBands(foreground, BlankScreen(rows, cols), rows, cols, numThreads);
    var n := 0;
    while n < gens
      invariant 0 <= n <= gens
      invariant foreground == Evolve(init, rows, cols, ThreadedUpdate.NumSpecies, oracle, n)
      invariant CellsIn(foreground, rows, cols, ThreadedUpdate.NumSpecies)
      invariant IsGrid(background, rows, cols)
      invariant display == ColourGrid(foreground, rows, cols)
    {
      foreground, background, display := Tick(foreground, background, display, rows, cols, numThreads, oracle(n));
      n := n + 1;
    }
  }

  /**
    The task-parallel driver: the same loop with the tile functors in place
    of the bands, for any tiling that covers the grid.
    */
  method TiledRun(init: Board, rows: nat, cols: nat, numSpecies: int, tiles: seq<Region>, gens: nat,
                  oracle: GenerationOracle)
    returns (foreground: Board, display: Screen)
    requires IsGrid(init, rows, cols) && numSpecies <= MaxNumSpecies && CellsIn(init, rows, cols, numSpecies)
    requires forall k :: 0 <= k < |tiles| ==> Within(tiles[k], rows, cols)
    requires Covers(tiles, rows, cols)
    ensures foreground == Evolve(init, rows, cols, numSpecies, oracle, gens)
    ensures CellsIn(foreground, rows, cols, numSpecies)
    ensures display == ColourGrid(foreground, rows, cols)
  {
    foreground := init;
    var background := init;
    display := Display.MapTiles(background, BlankScreen(rows, cols), rows, cols, tiles);
    var n := 0;
    while n < gens
      invariant 0 <= n <= gens
      invariant foreground == Evolve(init, rows, cols, numSpecies, oracle, n)
      invariant CellsIn(foreground, rows, cols, numSpecies)
      invariant IsGrid(background, rows, cols)
      invariant display == ColourGrid(foreground, rows, cols)
    {
      foreground, background, display := TiledTick(foreground, background, display, rows, cols, numSpecies,
                                                   tiles, oracle(n));
      n := n + 1;
    }
  }
}
