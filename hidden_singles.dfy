/** Hidden singles.  One solve sweep visits the cells in row-major order.  At
    an unfixed cell it checks its row, then its column, then its box: when
    exactly one of the cell's candidates is a candidate of no other cell of
    that group, the cell is fixed to it.  A later check at the same cell sees
    the cell already fixed and does nothing. */
module HiddenSingles {
  import opened Geometry
  import opened Cells

  /** The board during a solve sweep, with the number of cells fixed so far. */
  datatype Tally = Tally(cells: Grid, solved: nat)

  /** The candidates of cell i that no cell of the group can take. */
  function Hidden(g: Grid, i: nat, group: seq<nat>): set<int>
    requires i < Size && InBoard(group)
  {
    g[i] - Options(CellsAt(g, group))
  }

  /** One of the three checks made at cell i. */
  function Check(acc: Tally, i: nat, group: seq<nat>): (r: Tally)
    requires i < Size && InBoard(group)
    ensures r == acc || (!IsFixed(acc.cells[i]) && r == Tally(acc.cells[i := Hidden(acc.cells, i, group)], acc.solved + 1))
    ensures r != acc ==> |Hidden(acc.cells, i, group)| == 1
  {
    if IsFixed(acc.cells[i]) then acc
    else
      var opts := Hidden(acc.cells, i, group);
      if |opts| == 1 then Tally(acc.cells[i := opts], acc.solved + 1) else acc
  }

  /** The visit of cell i: row check, column check, box check. */
  function Visit(acc: Tally, i: nat): (r: Tally)
    requires i < Size
    ensures forall j :: 0 <= j < Size && j != i ==> r.cells[j] == acc.cells[j]
    ensures r == acc || (r.solved == acc.solved + 1 && !IsFixed(acc.cells[i]) &&
                         IsFixed(r.cells[i]) && r.cells[i] <= acc.cells[i])
  {
    var x, y := i % 9, i / 9;
    Check(Check(Check(acc, i, Row(x, y)), i, Col(x, y)), i, Box(x, y))
  }

  /** The cells whose candidates differ between g and h. */
  function Changed(g: Grid, h: Grid): set<nat>
  {
    set j: nat | j < Size && h[j] != g[j]
  }

  /** The sweep after it has visited cells 0 .. k-1: cells not yet visited
      are untouched, and a visited cell is either untouched or was unfixed
      and is now fixed to one of its candidates. */
  function SolveUpTo(g: Grid, k: nat): (r: Tally)
    requires k <= Size
    ensures forall j :: k <= j < Size ==> r.cells[j] == g[j]
    ensures forall j :: 0 <= j < Size ==>
      r.cells[j] == g[j] || (!IsFixed(g[j]) && IsFixed(r.cells[j]) && r.cells[j] <= g[j])
    decreases k
  {
    if k == 0 then Tally(g, 0) else Visit(SolveUpTo(g, k - 1), k - 1)
  }

  /** The counter of the sweep is the number of cells it has changed. */
  lemma {:induction false} SolveUpToChanged(g: Grid, k: nat)
    requires k <= Size
    ensures SolveUpTo(g, k).solved == |Changed(g, SolveUpTo(g, k).cells)|
    decreases k
  {
    if k == 0 {
      assert Changed(g, g) == {};
    } else {
      SolveUpToChanged(g, k - 1);
      ChangedStep(g, k - 1);
    }
  }

  lemma ChangedStep(g: Grid, i: nat)
    requires i < Size && SolveUpTo(g, i).solved == |Changed(g, SolveUpTo(g, i).cells)|
    ensures SolveUpTo(g, i + 1).solved == |Changed(g, SolveUpTo(g, i + 1).cells)|
  {
    var prev := SolveUpTo(g, i);
    var r := Visit(prev, i);
    SolveStep(g, i);
    if r != prev {
      ChangedGrows(g, prev.cells, r.cells, i);
    }
  }

  /** A sweep fixes at most one cell per visit. */
  lemma {:induction false} SolveUpToBound(g: Grid, k: nat)
    requires k <= Size
    ensures SolveUpTo(g, k).solved <= k
    decreases k
  {
    if k > 0 {
      SolveUpToBound(g, k - 1);
    }
  }

  lemma ChangedGrows(g: Grid, before: Grid, after: Grid, i: nat)
    requires i < Size && before[i] == g[i] && after[i] != g[i]
    requires forall j :: 0 <= j < Size && j != i ==> after[j] == before[j]
    ensures i !in Changed(g, before)
    ensures Changed(g, after) == Changed(g, before) + {i}
  {
  }

  /** One whole solve sweep. */
  function Solve(g: Grid): Tally
  {
    SolveUpTo(g, |g|)
  }

  /** A visited cell keeps the candidates its visit left it. */
  lemma {:induction false} SolveStable(g: Grid, j: nat, K: nat)
    requires j < K <= Size
    ensures SolveUpTo(g, K).cells[j] == SolveUpTo(g, j + 1).cells[j]
    decreases K
  {
    if K > j + 1 {
      SolveStable(g, j, K - 1);
      StableStep(g, j, K - 1);
    }
  }

  lemma StableStep(g: Grid, j: nat, k: nat)
    requires j < k < Size
    ensures SolveUpTo(g, k + 1).cells[j] == SolveUpTo(g, k).cells[j]
  {
    SolveStep(g, k);
    VisitOther(SolveUpTo(g, k), k, j);
  }

  /** A visit leaves every other cell alone. */
  lemma VisitOther(a: Tally, i: nat, j: nat)
    requires i < Size && j < Size && j != i
    ensures Visit(a, i).cells[j] == a.cells[j]
  {
  }

  /** The sweep after cell k is the visit of cell k. */
  lemma SolveStep(g: Grid, k: nat)
    requires k < Size
    ensures SolveUpTo(g, k + 1) == Visit(SolveUpTo(g, k), k)
  {
  }

  /** When cell i is visited, the cells before it hold their final
      candidates and the cells from it onwards their initial ones. */
  lemma VisitState(g: Grid, i: nat)
    requires i < Size
    ensures forall j :: 0 <= j < Size ==>
      SolveUpTo(g, i).cells[j] == if j < i then Solve(g).cells[j] else g[j]
  {
    forall j | 0 <= j < i
      ensures SolveUpTo(g, i).cells[j] == Solve(g).cells[j]
    {
      SolveStable(g, j, i);
      SolveStable(g, j, |g|);
    }
  }

  /** The final candidates of cell i are those its visit left. */
  lemma FinalIsVisit(g: Grid, i: nat)
    requires i < Size
    ensures Solve(g).cells[i] == Visit(SolveUpTo(g, i), i).cells[i]
    ensures SolveUpTo(g, i).cells[i] == g[i]
  {
    SolveStable(g, i, |g|);
  }

  /** No other cell of the row, of the column or of the box of cell i has v
      as a candidate. */
  predicate HiddenIn(at: Grid, i: nat, v: int)
    requires i < Size
  {
    var x, y := i % 9, i / 9;
    v !in Options(CellsAt(at, Row(x, y))) ||
    v !in Options(CellsAt(at, Col(x, y))) ||
    v !in Options(CellsAt(at, Box(x, y)))
  }

  /** A visit that changes its cell fixes it to a candidate that no other
      cell of the row, of the column or of the box can take. */
  lemma VisitSound(a: Tally, i: nat)
    requires i < Size && Visit(a, i).cells[i] != a.cells[i]
    ensures !IsFixed(a.cells[i]) && IsFixed(Visit(a, i).cells[i])
    ensures Visit(a, i).cells[i] <= a.cells[i]
    ensures HiddenIn(a.cells, i, FixedValue(Visit(a, i).cells[i]))
  {
    var x, y := i % 9, i / 9;
    var b := Check(a, i, Row(x, y));
    var c := Check(b, i, Col(x, y));
    var group := if b != a then Row(x, y) else if c != b then Col(x, y) else Box(x, y);
    var h := Hidden(a.cells, i, group);
    assert Visit(a, i).cells[i] == h && |h| == 1;
    var v := FixedValue(h);
    assert v in a.cells[i] && v !in Options(CellsAt(a.cells, group));
  }

  /** Each cell the sweep changes was unfixed and is now fixed to one of its
      candidates that, when the cell was visited, no other cell of its row,
      of its column or of its box could take. */
  lemma HiddenSingleSound(g: Grid, i: nat)
    requires i < Size && Solve(g).cells[i] != g[i]
    ensures !IsFixed(g[i]) && IsFixed(Solve(g).cells[i]) && Solve(g).cells[i] <= g[i]
    ensures HiddenIn(SolveUpTo(g, i).cells, i, FixedValue(Solve(g).cells[i]))
  {
    FinalIsVisit(g, i);
    VisitSound(SolveUpTo(g, i), i);
  }

  /** The final candidates of every cell, in terms of the board the sweep
      saw at its visit: a fixed cell is left alone, otherwise the row is
      consulted first, then the column, then the box. */
  lemma HiddenSingleOrder(g: Grid, i: nat)
    requires i < Size
    ensures var at := SolveUpTo(g, i).cells;
      var x, y := i % 9, i / 9;
      Solve(g).cells[i] ==
        if IsFixed(g[i]) then g[i]
        else if |Hidden(at, i, Row(x, y))| == 1 then Hidden(at, i, Row(x, y))
        else if |Hidden(at, i, Col(x, y))| == 1 then Hidden(at, i, Col(x, y))
        else if |Hidden(at, i, Box(x, y))| == 1 then Hidden(at, i, Box(x, y))
        else g[i]
  {
    FinalIsVisit(g, i);
  }

  /** The sweep never adds a candidate, and the number it returns is the
      number of cells it fixed. */
  lemma SolveCounts(g: Grid)
    ensures Shrinks(Solve(g).cells, g)
    ensures Solve(g).solved == |Changed(g, Solve(g).cells)| <= Size
    ensures forall j :: 0 <= j < Size && Solve(g).cells[j] != g[j] ==> IsFixed(Solve(g).cells[j])
  {
    SolveUpToBound(g, |g|);
    SolveUpToChanged(g, |g|);
  }
}
