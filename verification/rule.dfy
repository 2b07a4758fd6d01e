/**
  The multi-species transition rule as a pure function of the current
  generation. A live cell survives on 2 or 3 neighbours of its own species; a
  dead cell is born as one of the species that surround it exactly 3 times,
  the random draw choosing among them.
  */
module Rule {
  import opened Grid

  /** The random draw a birth uses, one per cell (`rand()` in the source). */
  type Oracle = (int, int) -> nat

  /** Is the `i`-th Moore neighbour of (r, c) inside the grid and holding `s`? */
  predicate Hit(g: Board, rows: nat, cols: nat, r: int, c: int, s: int, i: int)
    requires IsGrid(g, rows, cols) && 0 <= i < |Offsets|
  {
    var (dr, dc) := Offsets[i];
    InBounds(rows, cols, r + dr, c + dc) && g[r + dr][c + dc] == s
  }

  /** How many of the first `i` Moore neighbours of (r, c) are inside the grid and hold `s`. */
  function CountFrom(g: Board, rows: nat, cols: nat, r: int, c: int, s: int, i: nat): nat
    requires IsGrid(g, rows, cols) && i <= |Offsets|
  {
    if i == 0 then 0
    else CountFrom(g, rows, cols, r, c, s, i - 1) + (if Hit(g, rows, cols, r, c, s, i - 1) then 1 else 0)
  }

  /** Number of in-grid Moore neighbours of (r, c) holding `s`; no wrap-around at the edges. */
  function NeighbourCount(g: Board, rows: nat, cols: nat, r: int, c: int, s: int): nat
    requires IsGrid(g, rows, cols)
  {
    CountFrom(g, rows, cols, r, c, s, |Offsets|)
  }

  lemma {:induction false} CountFromBound(g: Board, rows: nat, cols: nat, r: int, c: int, s: int, i: nat)
    requires IsGrid(g, rows, cols) && i <= |Offsets|
    ensures CountFrom(g, rows, cols, r, c, s, i) <= i
  {
    if i > 0 {
      CountFromBound(g, rows, cols, r, c, s, i - 1);
    }
  }

  /** A cell has at most eight neighbours of any one species. */
  lemma NeighbourCountBound(g: Board, rows: nat, cols: nat, r: int, c: int, s: int)
    requires IsGrid(g, rows, cols)
    ensures NeighbourCount(g, rows, cols, r, c, s) <= 8
  {
    CountFromBound(g, rows, cols, r, c, s, |Offsets|);
  }

  /** Three different species never account for more neighbours than there are offsets. */
  lemma {:induction false} CountFromDistinct(g: Board, rows: nat, cols: nat, r: int, c: int,
                                            s: int, t: int, u: int, i: nat)
    requires IsGrid(g, rows, cols) && i <= |Offsets|
    requires s != t && t != u && s != u
    ensures CountFrom(g, rows, cols, r, c, s, i) + CountFrom(g, rows, cols, r, c, t, i)
            + CountFrom(g, rows, cols, r, c, u, i) <= i
  {
    if i > 0 {
      CountFromDistinct(g, rows, cols, r, c, s, t, u, i - 1);
    }
  }

  /** The per-species neighbour tally a dead cell builds (`speciesCounter`). */
  function Tally(g: Board, rows: nat, cols: nat, r: int, c: int): (tally: seq<nat>)
    requires IsGrid(g, rows, cols)
  {
    seq(MaxNumSpecies, s => NeighbourCount(g, rows, cols, r, c, s))
  }

  /**
    The species below `m` whose tally is exactly 3, in ascending order: the
    `candidates` array a loop over species ids fills.
    */
  function CandidatesIn(tally: seq<nat>, m: int): (cs: seq<int>)
    requires m <= |tally|
    ensures forall k :: 0 <= k < |cs| ==> 0 <= cs[k] < m && tally[cs[k]] == 3
    ensures forall s :: 0 <= s < m && tally[s] == 3 ==> s in cs
    ensures forall k, l :: 0 <= k < l < |cs| ==> cs[k] < cs[l]
    ensures |cs| == 0 || |cs| <= m
  {
    if m <= 0 then []
    else CandidatesIn(tally, m - 1) + (if tally[m - 1] == 3 then [m - 1] else [])
  }

  /** The species a dead cell at (r, c) may be born as. */
  function Candidates(g: Board, rows: nat, cols: nat, r: int, c: int, numSpecies: int): seq<int>
    requires IsGrid(g, rows, cols) && numSpecies <= MaxNumSpecies
  {
    CandidatesIn(Tally(g, rows, cols, r, c), numSpecies)
  }

  /**
    The value cell (r, c) takes in the next generation, `k` being the random
    draw used if the cell is born.
    */
  function NextCell(g: Board, rows: nat, cols: nat, r: int, c: int, numSpecies: int, k: nat): (v: int)
    requires IsGrid(g, rows, cols) && InBounds(rows, cols, r, c) && numSpecies <= MaxNumSpecies
    ensures IsCell(g[r][c], numSpecies) ==> IsCell(v, numSpecies)
  {
    var status := g[r][c];
    if status == DeadId then
      var cs := Candidates(g, rows, cols, r, c, numSpecies);
      if |cs| > 0 then cs[k % |cs|] else DeadId
    else
      var count := NeighbourCount(g, rows, cols, r, c, status);
      if count < 2 || count > 3 then DeadId else status
  }

  /** The whole next generation. */
  function Step(g: Board, rows: nat, cols: nat, numSpecies: int, oracle: Oracle): (h: Board)
    requires IsGrid(g, rows, cols) && numSpecies <= MaxNumSpecies
    ensures IsGrid(h, rows, cols)
    ensures forall i, j :: InBounds(rows, cols, i, j) ==>
              h[i][j] == NextCell(g, rows, cols, i, j, numSpecies, oracle(i, j))
  {
    seq(rows, i requires 0 <= i < rows =>
      seq(cols, j requires 0 <= j < cols => NextCell(g, rows, cols, i, j, numSpecies, oracle(i, j))))
  }

  /**
    The next generation restricted to a region: cells of `t` take their next
    value, every other cell keeps what `bg` held.
    */
  function UpdateRegion(fg: Board, bg: Board, rows: nat, cols: nat, numSpecies: int,
                        t: Region, oracle: Oracle): (h: Board)
    requires IsGrid(fg, rows, cols) && IsGrid(bg, rows, cols) && numSpecies <= MaxNumSpecies
    ensures IsGrid(h, rows, cols)
    ensures forall i, j :: InBounds(rows, cols, i, j) ==>
              h[i][j] == if InRegion(t, i, j) then NextCell(fg, rows, cols, i, j, numSpecies, oracle(i, j)) else bg[i][j]
  {
    seq(rows, i requires 0 <= i < rows =>
      seq(cols, j requires 0 <= j < cols =>
        if InRegion(t, i, j) then NextCell(fg, rows, cols, i, j, numSpecies, oracle(i, j)) else bg[i][j]))
  }

  // ---------------------------------------------------------------------------
  // Properties of the rule
  // ---------------------------------------------------------------------------

  /**
    A live cell keeps its species exactly when 2 or 3 of its neighbours share
    that species, and otherwise dies.
    */
  lemma SurvivalRule(g: Board, rows: nat, cols: nat, r: int, c: int, numSpecies: int, k: nat)
    requires IsGrid(g, rows, cols) && InBounds(rows, cols, r, c) && numSpecies <= MaxNumSpecies
    requires g[r][c] != DeadId
    ensures var count := NeighbourCount(g, rows, cols, r, c, g[r][c]);
            NextCell(g, rows, cols, r, c, numSpecies, k) == g[r][c] <==> count == 2 || count == 3
    ensures NextCell(g, rows, cols, r, c, numSpecies, k) in {g[r][c], DeadId}
  {
  }

  /**
    A dead cell comes alive exactly when some species below `numSpecies` has
    exactly 3 neighbours around it, and is then born as such a species.
    */
  lemma BirthRule(g: Board, rows: nat, cols: nat, r: int, c: int, numSpecies: int, k: nat)
    requires IsGrid(g, rows, cols) && InBounds(rows, cols, r, c) && numSpecies <= MaxNumSpecies
    requires g[r][c] == DeadId
    ensures var v := NextCell(g, rows, cols, r, c, numSpecies, k);
            (v != DeadId <==> exists s :: 0 <= s < numSpecies && NeighbourCount(g, rows, cols, r, c, s) == 3)
            && (v != DeadId ==> 0 <= v < numSpecies && NeighbourCount(g, rows, cols, r, c, v) == 3)
  {
    var tally := Tally(g, rows, cols, r, c);
    var cs := Candidates(g, rows, cols, r, c, numSpecies);
    if s :| 0 <= s < numSpecies && NeighbourCount(g, rows, cols, r, c, s) == 3 {
      assert tally[s] == 3;
      assert s in cs;
    }
  }

  /** With a single qualifying species the birth does not depend on the random draw. */
  lemma SingleCandidateIsDeterministic(g: Board, rows: nat, cols: nat, r: int, c: int,
                                       numSpecies: int, s: int, k: nat)
    requires IsGrid(g, rows, cols) && InBounds(rows, cols, r, c) && numSpecies <= MaxNumSpecies
    requires g[r][c] == DeadId
    requires 0 <= s < numSpecies && NeighbourCount(g, rows, cols, r, c, s) == 3
    requires forall t :: 0 <= t < numSpecies && t != s ==> NeighbourCount(g, rows, cols, r, c, t) != 3
    ensures NextCell(g, rows, cols, r, c, numSpecies, k) == s
  {
    var tally := Tally(g, rows, cols, r, c);
    var cs := Candidates(g, rows, cols, r, c, numSpecies);
    assert tally[s] == 3;
    assert s in cs;
    forall i | 0 <= i < |cs|
      ensures cs[i] == s
    {
      assert tally[cs[i]] == 3;
    }
  }

  /** The position of `x` in `xs`. */
  function IndexOf(xs: seq<int>, x: int): (i: nat)
    requires x in xs
    ensures i < |xs| && xs[i] == x
  {
    if xs[0] == x then 0 else 1 + IndexOf(xs[1..], x)
  }

  /** The draw equal to a candidate's position picks that candidate. */
  lemma DrawOfIndex(cs: seq<int>, x: int)
    requires x in cs
    ensures cs[IndexOf(cs, x) % |cs|] == x
  {
    var i := IndexOf(cs, x);
    assert i % |cs| == i;
  }

  /** The draw `k` picks a dead cell's candidate by its position modulo the count. */
  lemma DeadCellDraw(g: Board, rows: nat, cols: nat, r: int, c: int, numSpecies: int, k: nat)
    requires IsGrid(g, rows, cols) && InBounds(rows, cols, r, c) && numSpecies <= MaxNumSpecies
    requires g[r][c] == DeadId
    ensures var cs := Candidates(g, rows, cols, r, c, numSpecies);
            NextCell(g, rows, cols, r, c, numSpecies, k) == if |cs| > 0 then cs[k % |cs|] else DeadId
  {
  }

  /** Every qualifying species is the outcome of some random draw. */
  lemma EveryCandidateIsReachable(g: Board, rows: nat, cols: nat, r: int, c: int,
                                  numSpecies: int, s: int)
    requires IsGrid(g, rows, cols) && InBounds(rows, cols, r, c) && numSpecies <= MaxNumSpecies
    requires g[r][c] == DeadId
    requires 0 <= s < numSpecies && NeighbourCount(g, rows, cols, r, c, s) == 3
    ensures exists k: nat :: NextCell(g, rows, cols, r, c, numSpecies, k) == s
  {
    var cs := Candidates(g, rows, cols, r, c, numSpecies);
    assert Tally(g, rows, cols, r, c)[s] == 3;
    assert s in cs;
    var i := IndexOf(cs, s);
    DrawOfIndex(cs, s);
    DeadCellDraw(g, rows, cols, r, c, numSpecies, i);
  }

  /**
    At most two species can have exactly 3 neighbours around one cell, since
    three such species would need nine neighbours.
    */
  lemma AtMostTwoCandidates(g: Board, rows: nat, cols: nat, r: int, c: int, numSpecies: int)
    requires IsGrid(g, rows, cols) && numSpecies <= MaxNumSpecies
    ensures |Candidates(g, rows, cols, r, c, numSpecies)| <= 2
  {
    var tally := Tally(g, rows, cols, r, c);
    var cs := Candidates(g, rows, cols, r, c, numSpecies);
    if |cs| > 2 {
      assert tally[cs[0]] == 3 && tally[cs[1]] == 3 && tally[cs[2]] == 3;
      CountFromDistinct(g, rows, cols, r, c, cs[0], cs[1], cs[2], |Offsets|);
      assert false;
    }
  }

  /** One generation keeps every cell dead or a species below `numSpecies`. */
  lemma StepPreservesCells(g: Board, rows: nat, cols: nat, numSpecies: int, oracle: Oracle)
    requires IsGrid(g, rows, cols) && numSpecies <= MaxNumSpecies
    requires CellsIn(g, rows, cols, numSpecies)
    ensures IsGrid(Step(g, rows, cols, numSpecies, oracle), rows, cols)
    ensures CellsIn(Step(g, rows, cols, numSpecies, oracle), rows, cols, numSpecies)
  {
    var h := Step(g, rows, cols, numSpecies, oracle);
    forall i, j | InBounds(rows, cols, i, j)
      ensures IsCell(h[i][j], numSpecies)
    {
      assert IsCell(g[i][j], numSpecies);
    }
  }

  /**
    Updating two regions one after the other gives the same buffer in either
    order: every written cell gets a value that depends on `fg` alone.
    */
  lemma UpdateRegionsCommute(fg: Board, bg: Board, rows: nat, cols: nat, numSpecies: int,
                             t1: Region, t2: Region, oracle: Oracle)
    requires IsGrid(fg, rows, cols) && IsGrid(bg, rows, cols) && numSpecies <= MaxNumSpecies
    ensures var a := UpdateRegion(fg, bg, rows, cols, numSpecies, t1, oracle);
            var b := UpdateRegion(fg, bg, rows, cols, numSpecies, t2, oracle);
            IsGrid(a, rows, cols) && IsGrid(b, rows, cols) &&
            UpdateRegion(fg, a, rows, cols, numSpecies, t2, oracle)
            == UpdateRegion(fg, b, rows, cols, numSpecies, t1, oracle)
  {
    var a := UpdateRegion(fg, bg, rows, cols, numSpecies, t1, oracle);
    var b := UpdateRegion(fg, bg, rows, cols, numSpecies, t2, oracle);
    GridExt(UpdateRegion(fg, a, rows, cols, numSpecies, t2, oracle),
            UpdateRegion(fg, b, rows, cols, numSpecies, t1, oracle), rows, cols);
  }

  /** Updating the whole grid as one region is the whole next generation, whatever `bg` held. */
  lemma WholeRegionIsStep(fg: Board, bg: Board, rows: nat, cols: nat, numSpecies: int, oracle: Oracle)
    requires IsGrid(fg, rows, cols) && IsGrid(bg, rows, cols) && numSpecies <= MaxNumSpecies
    ensures UpdateRegion(fg, bg, rows, cols, numSpecies, Region(0, rows, 0, cols), oracle)
            == Step(fg, rows, cols, numSpecies, oracle)
  {
    GridExt(UpdateRegion(fg, bg, rows, cols, numSpecies, Region(0, rows, 0, cols), oracle),
            Step(fg, rows, cols, numSpecies, oracle), rows, cols);
  }

  /**
    A single-species 3 x 3 block: the centre has 8 neighbours of its species
    and dies, a corner has 3 and survives.
    */
  lemma CrowdedCentreDies()
    ensures var g := [[0, 0, 0], [0, 0, 0], [0, 0, 0]];
            NeighbourCount(g, 3, 3, 1, 1, 0) == 8 && NextCell(g, 3, 3, 1, 1, 1, 0) == DeadId
            && NeighbourCount(g, 3, 3, 0, 0, 0) == 3 && NextCell(g, 3, 3, 0, 0, 1, 0) == 0
  {
    var g := [[0, 0, 0], [0, 0, 0], [0, 0, 0]];
    assert IsGrid(g, 3, 3);
  }

  /**
    A dead centre surrounded by three cells of species 1 and one of species 0
    is born as species 1 whatever the draw.
    */
  lemma BirthOnThree(k: nat)
    ensures var g := [[1, 1, -1], [1, -1, -1], [0, -1, -1]];
            NextCell(g, 3, 3, 1, 1, 2, k) == 1
  {
    var g := [[1, 1, -1], [1, -1, -1], [0, -1, -1]];
    assert IsGrid(g, 3, 3);
    assert [CountFrom(g, 3, 3, 1, 1, 1, 4), CountFrom(g, 3, 3, 1, 1, 1, 8)] == [2, 3];
    assert [CountFrom(g, 3, 3, 1, 1, 0, 4), CountFrom(g, 3, 3, 1, 1, 0, 8)] == [0, 1];
    SingleCandidateIsDeterministic(g, 3, 3, 1, 1, 2, 1, k);
  }
}
