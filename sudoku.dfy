/** The board object and the operations that update it in place.  Each
    operation is proved against the function over board snapshots that
    specifies it (Elimination, HiddenSingles, Search, Parsing). */
module Sudoku {
  import opened Geometry
  import opened Cells
  import opened Elimination
  import opened HiddenSingles
  import opened Search
  import opened Parsing

  /** A board: the candidate set of every cell, by cell number, and the
      search depth at which the board was made. */
  class Board {
    var cells: array<set<int>>
    var depth: nat

    ghost predicate Wellformed()
      reads this
    {
      cells.Length == Size
    }

    /** The candidates of all cells, by cell number. */
    function Snapshot(): Grid
      reads this, cells
      requires Wellformed()
    {
      cells[..]
    }

    /** A board on which every cell may still be any digit. */
    constructor (depth: nat)
      ensures Wellformed() && fresh(cells)
      ensures cells[..] == Fresh() && this.depth == depth
    {
      this.depth := depth;
      cells := new set<int>[Size](_ => Digits);
    }

    /** A board holding the given candidates. */
    constructor Copy(g: Grid, depth: nat)
      ensures Wellformed() && fresh(cells)
      ensures cells[..] == g && this.depth == depth
    {
      this.depth := depth;
      cells := new set<int>[Size](i requires 0 <= i < Size => g[i]);
    }

    /** An independent copy: same candidates, same depth, its own array. */
    method Clone() returns (b: Board)
      requires Wellformed()
      ensures fresh(b) && fresh(b.cells) && b.Wellformed()
      ensures b.Snapshot() == Snapshot() && b.depth == depth
    {
      b := new Board.Copy(Snapshot(), depth);
    }

    /** The candidates of the cell in column x of row y. */
    function Get(x: nat, y: nat): set<int>
      reads this, cells
      requires Wellformed() && Index(x, y) < Size
    {
      cells[Index(x, y)]
    }

    /** Replaces the candidates of the cell in column x of row y. */
    method Set(x: nat, y: nat, values: set<int>)
      requires Wellformed() && Index(x, y) < Size
      modifies cells
      ensures Snapshot() == old(Snapshot())[Index(x, y) := values]
    {
      cells[Index(x, y)] := values;
    }

    /** Removes v from cell i and reports whether it was a candidate. */
    method Discard(i: nat, v: int) returns (found: bool)
      requires Wellformed() && i < Size
      modifies cells
      ensures found <==> v in old(cells[i])
      ensures Snapshot() == old(Snapshot())[i := old(cells[i]) - {v}]
    {
      found := v in cells[i];
      cells[i] := cells[i] - {v};
    }

    /** One prune sweep; returns how many discards removed a candidate and
      how many of those left the cell fixed. */
    method Prune() returns (modified: nat, solved: nat)
      requires Wellformed()
      modifies cells
      ensures Sweep(Snapshot(), modified, solved) == Elimination.Prune(old(Snapshot()))
    {
      ghost var g0: Grid := Snapshot();
      modified, solved := 0, 0;
      for y := 0 to 9
        invariant Sweep(Snapshot(), modified, solved) == PruneUpTo(g0, Index(0, y))
      {
        for x := 0 to 9
          invariant Sweep(Snapshot(), modified, solved) == PruneUpTo(g0, Index(x, y))
        {
          modified, solved := VisitCell(g0, x, y, modified, solved);
        }
        assert Index(9, y) == Index(0, y + 1);
      }
    }

    /** The visit of the cell in column x of row y during a prune sweep. */
    method VisitCell(ghost g0: Grid, x: nat, y: nat, modified: nat, solved: nat) returns (m: nat, s: nat)
      requires Wellformed() && x < 9 && y < 9
      requires Sweep(Snapshot(), modified, solved) == PruneUpTo(g0, Index(x, y))
      modifies cells
      ensures Sweep(Snapshot(), m, s) == PruneUpTo(g0, Index(x, y) + 1)
    {
      IndexCoordinates(x, y);
      PruneStep(g0, Index(x, y));
      m, s := modified, solved;
      var c := Get(x, y);
      if IsFixed(c) {
        m, s := DiscardAround(x, y, FixedValue(c), m, s);
      }
    }

    /** The inner loop of a prune sweep: discards v from every neighbour of
      the cell in column x of row y, counting as the sweep does. */
    method DiscardAround(x: nat, y: nat, v: int, modified: nat, solved: nat) returns (m: nat, s: nat)
      requires Wellformed() && x < 9 && y < 9
      modifies cells
      ensures Sweep(Snapshot(), m, s) == DiscardAll(Sweep(old(Snapshot()), modified, solved), Neighbours(x, y), v)
    {
      ghost var before := Sweep(Snapshot(), modified, solved);
      m, s := modified, solved;
      var ns := Neighbours(x, y);
      assert DiscardAll(before, ns[..0], v) == before;
      for k := 0 to |ns|
        invariant Sweep(Snapshot(), m, s) == DiscardAll(before, ns[..k], v)
      {
        DiscardStep(before, ns, v, k);
        m, s := DiscardCounted(ns[k], v, m, s);
      }
      assert ns[..|ns|] == ns;
    }

    /** Discards v from cell n; a discard that removed v counts as a
      modification, and as a solve too when it left the cell fixed. */
    method DiscardCounted(n: nat, v: int, modified: nat, solved: nat) returns (m: nat, s: nat)
      requires Wellformed() && n < Size
      modifies cells
      ensures Sweep(Snapshot(), m, s) == DiscardOne(Sweep(old(Snapshot()), modified, solved), n, v)
    {
      m, s := modified, solved;
      var found := Discard(n, v);
      if found {
        m := m + 1;
        if IsFixed(cells[n]) {
          s := s + 1;
        }
      }
    }

    /** Prune sweeps repeated until one removes nothing. */
    method PruneAll()
      requires Wellformed()
      modifies cells
      ensures Snapshot() == Settle(old(Snapshot()))
    {
      ghost var g0: Grid := Snapshot();
      ghost var prev: Grid := g0;
      var modified, solved := Prune();
      while modified > 0
        invariant Settle(prev) == Settle(g0)
        invariant Elimination.Prune(prev) == Sweep(Snapshot(), modified, solved)
        decreases Total(Snapshot()) + modified
      {
        prev := Snapshot();
        modified, solved := Prune();
      }
    }

    /** One hidden-single sweep; returns the number of cells it fixed. */
    method Solve() returns (solved: nat)
      requires Wellformed()
      modifies cells
      ensures Tally(Snapshot(), solved) == HiddenSingles.Solve(old(Snapshot()))
    {
      ghost var g0: Grid := Snapshot();
      solved := 0;
      for y := 0 to 9
        invariant Tally(Snapshot(), solved) == SolveUpTo(g0, Index(0, y))
      {
        for x := 0 to 9
          invariant Tally(Snapshot(), solved) == SolveUpTo(g0, Index(x, y))
        {
          solved := CheckCell(g0, x, y, solved);
        }
        assert Index(9, y) == Index(0, y + 1);
      }
    }

    /** The visit of the cell in column x of row y during a hidden-single
      sweep: its row, then its column, then its box. */
    method CheckCell(ghost g0: Grid, x: nat, y: nat, solved: nat) returns (count: nat)
      requires Wellformed() && x < 9 && y < 9
      requires Tally(Snapshot(), solved) == SolveUpTo(g0, Index(x, y))
      modifies cells
      ensures Tally(Snapshot(), count) == SolveUpTo(g0, Index(x, y) + 1)
    {
      IndexCoordinates(x, y);
      SolveStep(g0, Index(x, y));
      ghost var before := Tally(Snapshot(), solved);
      count := CheckGroup(x, y, Row(x, y), solved);
      count := CheckGroup(x, y, Col(x, y), count);
      count := CheckGroup(x, y, Box(x, y), count);
      assert Tally(Snapshot(), count) == Visit(before, Index(x, y));
    }

    /** One of the three checks the sweep makes at the cell in column x of
      row y: an unfixed cell with exactly one candidate that no cell of the
      group can take is fixed to it. */
    method CheckGroup(x: nat, y: nat, group: seq<nat>, solved: nat) returns (count: nat)
      requires Wellformed() && x < 9 && y < 9 && InBoard(group)
      modifies cells
      ensures Tally(Snapshot(), count) == Check(Tally(old(Snapshot()), solved), Index(x, y), group)
    {
      IndexCoordinates(x, y);
      count := solved;
      if !IsFixed(Get(x, y)) {
        var opts := Get(x, y) - Options(CellsAt(Snapshot(), group));
        if |opts| == 1 {
          Set(x, y, opts);
          count := count + 1;
        }
      }
    }

    /** Settles the board, then searches: each unfixed cell in branch order,
      each of its candidates in turn, is tried on a copy that receives one
      hidden-single sweep; the first copy whose sweep fixes a cell is
      adopted. */
    method Solve2() returns (r: Verdict)
      requires Wellformed()
      modifies this, cells
      ensures Wellformed() && depth == old(depth)
      ensures SearchResult(Settle(old(Snapshot())), Snapshot(), r)
    {
      PruneAll();
      var p := Snapshot();
      if IsSolved(p) || !IsValid(p) {
        EarlyResult(p);
        return Answer(p);
      }
      r := Search();
    }

    /** The branching part of Solve2, on a settled board that is neither
      solved nor contradictory: the first branch that fires is adopted. */
    method Search() returns (r: Verdict)
      requires Wellformed() && !IsSolved(Snapshot()) && IsValid(Snapshot())
      modifies this
      ensures Wellformed() && depth == old(depth)
      ensures SearchResult(old(Snapshot()), Snapshot(), r)
    {
      ghost var p := Snapshot();
      var found, k, v := FindBranch(p);
      if found.None? {
        NoBranchResult(p);
        return NoBranch;
      }
      ghost var h := found.value.Snapshot();
      r := Adopt(found.value);
      AdoptResult(p, k, v, h);
    }

    /** Takes over the candidates of board b and reports on them. */
    method Adopt(b: Board) returns (r: Verdict)
      requires Wellformed() && b.Wellformed()
      modifies this
      ensures Wellformed() && depth == old(depth) && cells == b.cells
      ensures Snapshot() == old(b.Snapshot()) && r == Answer(Snapshot())
    {
      cells := b.cells;
      r := Answer(Snapshot());
    }

    /** Walks the unfixed cells in branch order and returns the board of the
      first branch that fires, with its position and value. */
    method FindBranch(ghost p: Grid) returns (found: Option<Board>, ghost k: nat, ghost v: int)
      requires Wellformed() && Snapshot() == p
      ensures found.None? ==> NoneFiresBefore(p, |BranchOrder(p)|)
      ensures found.Some? ==>
        fresh(found.value) && fresh(found.value.cells) && found.value.Wellformed() &&
        Adopted(p, k, v) && found.value.Snapshot() == Branch(p, BranchOrder(p)[k], v).cells
    {
      var order := BranchOrder(Snapshot());
      k, v := 0, 0;
      for i := 0 to |order|
        invariant NoneFiresBefore(p, i)
      {
        var c := order[i];
        UnfixedInOrder(p, i);
        var adopted: Option<Board>;
        ghost var w: int;
        adopted, w := TryCell(p, c);
        if adopted.Some? {
          AdoptedAt(p, i, c, w);
          return adopted, i, w;
        }
        NextPosition(p, i, c);
      }
      return None, k, v;
    }

    /** Tries the candidates of the unfixed cell c, in no particular order,
      until a branch fires; returns that branch's board. */
    method TryCell(ghost p: Grid, c: nat) returns (adopted: Option<Board>, ghost v: int)
      requires Wellformed() && Snapshot() == p && c < Size && !IsFixed(p[c])
      ensures adopted.None? ==> forall w :: w in p[c] ==> !Fires(p, c, w)
      ensures adopted.Some? ==>
        fresh(adopted.value) && fresh(adopted.value.cells) && adopted.value.Wellformed() &&
        v in p[c] && Fires(p, c, v) && adopted.value.Snapshot() == Branch(p, c, v).cells
    {
      var untried := cells[c];
      v := 0;
      while untried != {}
        invariant untried <= p[c]
        invariant forall w :: w in p[c] && w !in untried ==> !Fires(p, c, w)
        decreases |untried|
      {
        HasMember(untried);
        var w :| w in untried;
        var b, n := TryBranch(c, w);
        if n > 0 {
          return Some(b), w;
        }
        untried := untried - {w};
      }
      return None, v;
    }

    /** One branch, tried on a copy one level deeper: cell c is fixed to v
      and the copy receives one hidden-single sweep. */
    method TryBranch(c: nat, v: int) returns (b: Board, n: nat)
      requires Wellformed() && c < Size && !IsFixed(cells[c])
      ensures fresh(b) && fresh(b.cells) && b.Wellformed() && b.depth == depth + 1
      ensures Tally(b.Snapshot(), n) == Branch(Snapshot(), c, v)
    {
      CoordinatesIndex(c);
      b := Clone();
      b.depth := b.depth + 1;
      b.Set(c % 9, c / 9, {v});
      assert Get(c % 9, c / 9) != b.Get(c % 9, c / 9);
      n := b.Solve();
    }
  }

  /** Reads a board from text; None when a digit lands past the last cell. */
  method Parse(text: string) returns (r: Option<Board>)
    ensures r.None? <==> ParseGrid(text).None?
    ensures r.Some? ==>
      fresh(r.value) && fresh(r.value.cells) && r.value.Wellformed() &&
      r.value.Snapshot() == ParseGrid(text).value && r.value.depth == 0
  {
    var b := new Board(0);
    var lines := Split(text);
    for y := 0 to |lines|
      invariant fresh(b) && fresh(b.cells) && b.Wellformed() && b.depth == 0
      invariant ParseLines(lines, y).Some? && ParseLines(lines, y).value == b.Snapshot()
    {
      var line := lines[y];
      ghost var g: Grid := b.Snapshot();
      for x := 0 to |line|
        invariant fresh(b) && fresh(b.cells) && b.Wellformed() && b.depth == 0
        invariant PlaceLine(g, line, y, x).Some? && PlaceLine(g, line, y, x).value == b.Snapshot()
      {
        var ch := line[x];
        if IsDigit(ch) {
          if Index(x, y) >= Size {
            SpillFails(text, y, x);
            return None;
          }
          b.Set(x, y, {DigitValue(ch)});
        }
      }
    }
    return Some(b);
  }
}
