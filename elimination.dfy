/** Candidate elimination.  One prune sweep visits the cells in row-major
    order; whenever the visited cell is fixed to v, v is discarded from each
    of its 24 neighbours (box, row, column).  The sweep counts the discards
    that removed something and, among them, those that left the neighbour
    fixed.  Settle repeats sweeps until one removes nothing. */
module Elimination {
  import opened Geometry
  import opened Cells

  /** The board during a sweep, with the sweep's two counters. */
  datatype Sweep = Sweep(cells: Grid, modified: nat, solved: nat)

  /** Discards v from cell n, counting as the sweep does: a discard that
      removes v counts as a modification, and also as a solve when it
      leaves the cell fixed. */
  function DiscardOne(acc: Sweep, n: nat, v: int): (r: Sweep)
    requires n < Size
    ensures r.cells == acc.cells[n := acc.cells[n] - {v}]
    ensures Total(r.cells) + r.modified == Total(acc.cells) + acc.modified
    ensures acc.solved <= r.solved && r.solved + acc.modified <= acc.solved + r.modified
  {
    if v in acc.cells[n] then
      var rest := acc.cells[n] - {v};
      TotalUpdate(acc.cells, n, rest);
      Sweep(acc.cells[n := rest], acc.modified + 1, acc.solved + if IsFixed(rest) then 1 else 0)
    else
      assert acc.cells[n] - {v} == acc.cells[n];
      acc
  }

  lemma LastElement(ns: seq<nat>)
    requires ns != []
    ensures forall j :: j in ns <==> j in ns[..|ns| - 1] || j == ns[|ns| - 1]
  {
    assert ns == ns[..|ns| - 1] + [ns[|ns| - 1]];
  }

  /** Discards v from the listed cells in turn, counting as the sweep does.
      Listing a cell twice is harmless: the second discard finds nothing. */
  function DiscardAll(acc: Sweep, ns: seq<nat>, v: int): (r: Sweep)
    requires InBoard(ns)
    ensures forall j :: 0 <= j < Size ==>
      r.cells[j] == if j in ns then acc.cells[j] - {v} else acc.cells[j]
    ensures Total(r.cells) + r.modified == Total(acc.cells) + acc.modified
    ensures acc.solved <= r.solved && r.solved + acc.modified <= acc.solved + r.modified
    decreases |ns|
  {
    if ns == [] then acc
    else
      LastElement(ns);
      DiscardOne(DiscardAll(acc, ns[..|ns| - 1], v), ns[|ns| - 1], v)
  }

  /** The sweep after it has visited cells 0 .. k-1. */
  function PruneUpTo(g: Grid, k: nat): (r: Sweep)
    requires k <= Size
    ensures Shrinks(r.cells, g)
    ensures Total(r.cells) + r.modified == Total(g)
    ensures r.solved <= r.modified
    decreases k
  {
    if k == 0 then Sweep(g, 0, 0)
    else
      var prev := PruneUpTo(g, k - 1);
      var c := prev.cells[k - 1];
      if IsFixed(c) then DiscardAll(prev, Peers(k - 1), FixedValue(c)) else prev
  }

  /** The visit of cell i, in terms of the sweep state before it. */
  lemma PruneStep(g: Grid, i: nat)
    requires i < Size
    ensures var prev := PruneUpTo(g, i);
      var c := prev.cells[i];
      PruneUpTo(g, i + 1) == if IsFixed(c) then DiscardAll(prev, Neighbours(i % 9, i / 9), FixedValue(c)) else prev
  {
  }

  /** One discard of the visit: cell ns[k] loses v, counted as the sweep
      counts it. */
  lemma DiscardStep(acc: Sweep, ns: seq<nat>, v: int, k: nat)
    requires k < |ns| && InBoard(ns)
    ensures DiscardAll(acc, ns[..k + 1], v) == DiscardOne(DiscardAll(acc, ns[..k], v), ns[k], v)
  {
    assert ns[..k + 1][..k] == ns[..k];
  }

  /** One whole prune sweep.  (|g| is Size; it is written |g| so that the
      verifier does not unfold the sweep cell by cell.) */
  function Prune(g: Grid): Sweep
  {
    PruneUpTo(g, |g|)
  }

  /** No fixed cell's value is still a candidate of one of its neighbours. */
  predicate NoConflict(g: Grid)
  {
    forall i, j :: 0 <= i < Size && IsFixed(g[i]) && j in Peers(i) ==> FixedValue(g[i]) !in g[j]
  }

  /** Later states of a sweep hold fewer candidates and larger counters. */
  lemma {:induction false} PruneMonotone(g: Grid, k1: nat, k2: nat)
    requires k1 <= k2 <= Size
    ensures Shrinks(PruneUpTo(g, k2).cells, PruneUpTo(g, k1).cells)
    ensures PruneUpTo(g, k1).modified <= PruneUpTo(g, k2).modified
    decreases k2
  {
    if k1 < k2 {
      PruneMonotone(g, k1, k2 - 1);
      PruneGrows(g, k2 - 1);
      ShrinksTransitive(PruneUpTo(g, k2).cells, PruneUpTo(g, k2 - 1).cells, PruneUpTo(g, k1).cells);
    }
  }

  /** One visit removes candidates only and never lowers the counter. */
  lemma PruneGrows(g: Grid, k: nat)
    requires k < Size
    ensures Shrinks(PruneUpTo(g, k + 1).cells, PruneUpTo(g, k).cells)
    ensures PruneUpTo(g, k).modified <= PruneUpTo(g, k + 1).modified
  {
  }

  /** Every candidate the sweep removes from cell i is the value of a
      neighbour of i that was fixed to it when the sweep visited that
      neighbour. */
  lemma {:induction false} PruneJustified(g: Grid, K: nat, i: nat, v: int)
    requires K <= Size && i < Size
    requires v in g[i] && v !in PruneUpTo(g, K).cells[i]
    ensures exists k :: 0 <= k < K && i in Peers(k) && PruneUpTo(g, k).cells[k] == {v}
    decreases K
  {
    var prev := PruneUpTo(g, K - 1);
    if v !in prev.cells[i] {
      PruneJustified(g, K - 1, i, v);
    } else {
      var c := prev.cells[K - 1];
      assert IsFixed(c) && v == FixedValue(c) && i in Peers(K - 1);
    }
  }

  /** Discarding a value no listed cell holds changes nothing. */
  lemma DiscardAllAbsent(acc: Sweep, ns: seq<nat>, v: int)
    requires InBoard(ns)
    requires forall k :: 0 <= k < |ns| ==> v !in acc.cells[ns[k]]
    ensures DiscardAll(acc, ns, v) == acc
  {
    var r := DiscardAll(acc, ns, v);
    forall j | 0 <= j < Size
      ensures r.cells[j] == acc.cells[j]
    {
      if j in ns {
        var k :| 0 <= k < |ns| && ns[k] == j;
      }
    }
    assert r.cells == acc.cells;
  }

  /** A sweep over a conflict-free board changes nothing at any point. */
  lemma {:induction false} PruneUpToQuiet(g: Grid, k: nat)
    requires k <= Size && NoConflict(g)
    ensures PruneUpTo(g, k) == Sweep(g, 0, 0)
    decreases k
  {
    if k > 0 {
      PruneUpToQuiet(g, k - 1);
      var i := k - 1;
      if IsFixed(g[i]) {
        var v, ns := FixedValue(g[i]), Peers(i);
        forall m | 0 <= m < |ns|
          ensures v !in g[ns[m]]
        {
          assert ns[m] in Peers(i);
        }
        DiscardAllAbsent(Sweep(g, 0, 0), ns, v);
      }
    }
  }

  /** A sweep that removes nothing left the board as it was, and every state
      it passed through was that board. */
  lemma QuietSweepUnchanged(g: Grid, k: nat)
    requires k <= Size && Prune(g).modified == 0
    ensures Prune(g).cells == g && PruneUpTo(g, k).cells == g
  {
    var last, mid := Prune(g).cells, PruneUpTo(g, k).cells;
    TotalShrinks(last, g);
    assert last == g;
    PruneMonotone(g, 0, k);
    PruneMonotone(g, k, |g|);
    forall i | 0 <= i < Size
      ensures mid[i] == g[i]
    {
      assert last[i] <= mid[i] <= g[i];
    }
    assert mid == g;
  }

  /** Visiting a fixed cell discards its value from each of its neighbours. */
  lemma VisitFixed(g: Grid, i: nat, j: nat)
    requires i < Size && IsFixed(PruneUpTo(g, i).cells[i]) && j in Peers(i)
    ensures PruneUpTo(g, i + 1).cells[j] == PruneUpTo(g, i).cells[j] - PruneUpTo(g, i).cells[i]
  {
  }

  lemma QuietSweepNoConflict(g: Grid)
    requires Prune(g).modified == 0
    ensures NoConflict(g)
  {
    forall i, j | 0 <= i < Size && IsFixed(g[i]) && j in Peers(i)
      ensures FixedValue(g[i]) !in g[j]
    {
      QuietSweepUnchanged(g, i);
      QuietSweepUnchanged(g, i + 1);
      VisitFixed(g, i, j);
    }
  }

  /** A sweep removes nothing exactly when no fixed value is still a
      candidate of a neighbour; it then leaves the board unchanged. */
  lemma PruneFixpoint(g: Grid)
    ensures Prune(g).modified == 0 <==> NoConflict(g)
    ensures Prune(g).modified == 0 ==> Prune(g).cells == g
  {
    if NoConflict(g) {
      PruneUpToQuiet(g, |g|);
    }
    if Prune(g).modified == 0 {
      QuietSweepUnchanged(g, 0);
      QuietSweepNoConflict(g);
    }
  }

  /** At the fixpoint a second sweep removes nothing either. */
  lemma PruneIdempotent(g: Grid)
    requires Prune(g).modified == 0
    ensures Prune(Prune(g).cells) == Prune(g)
  {
    PruneFixpoint(g);
  }

  /** Two neighbours fixed to the same value leave a cell without candidates
      after one sweep. */
  lemma PruneDetectsClash(g: Grid, i: nat, j: nat, v: int)
    requires i < Size && j in Peers(i)
    requires g[i] == {v} && g[j] == {v}
    ensures !IsValid(Prune(g).cells)
  {
    PeersMembers(i);
    assert IsPeer(i, j);
    PeersSymmetric(i, j);
    if i < j {
      ClashOrdered(g, i, j, v);
    } else {
      ClashOrdered(g, j, i, v);
    }
  }

  lemma ClashOrdered(g: Grid, a: nat, b: nat, v: int)
    requires a < b < Size && b in Peers(a)
    requires g[a] == {v} && g[b] == {v}
    ensures !IsValid(Prune(g).cells)
  {
    PruneMonotone(g, 0, a);
    var before := PruneUpTo(g, a).cells;
    if before[a] == {} {
      EmptiedLater(g, a, a);
    } else {
      assert before[a] == {v} by {
        assert before[a] <= {v};
      }
      assert before[b] <= {v};
      VisitFixed(g, a, b);
      EmptiedLater(g, a + 1, b);
    }
  }

  /** A cell the sweep has emptied stays empty until the end of the sweep. */
  lemma EmptiedLater(g: Grid, k: nat, i: nat)
    requires k <= Size && i < Size && PruneUpTo(g, k).cells[i] == {}
    ensures !IsValid(Prune(g).cells)
  {
    PruneMonotone(g, k, |g|);
    assert Prune(g).cells[i] == {};
  }

  /** Sweeps repeated until one removes nothing (the intended pruneall). */
  function Settle(g: Grid): (r: Grid)
    ensures Shrinks(r, g)
    decreases Total(g)
  {
    var p := Prune(g);
    if p.modified == 0 then p.cells else Settle(p.cells)
  }

  /** The settled board is conflict-free, so settling again changes nothing. */
  lemma {:induction false} SettleFixpoint(g: Grid)
    ensures NoConflict(Settle(g))
    ensures Prune(Settle(g)).modified == 0
    ensures Settle(Settle(g)) == Settle(g)
    decreases Total(g)
  {
    var p := Prune(g);
    if p.modified == 0 {
      PruneFixpoint(g);
    } else {
      SettleFixpoint(p.cells);
    }
    PruneFixpoint(Settle(g));
  }

  /** The Python values pruneall's loop test compares: an int, or a pair of
      ints such as the one prune returns. */
  datatype PyValue = PyInt(n: int) | PyPair(first: int, second: int)

  /** The outcome of a Python 3 comparison: a truth value, or a TypeError. */
  datatype Comparison = Compared(holds: bool) | TypeError

  /** Python 3's `a > b` on these values: ints compare by value, pairs
      lexicographically, and an int and a pair are not comparable. */
  function GreaterThan(a: PyValue, b: PyValue): (r: Comparison)
    ensures r == TypeError <==> a.PyInt? != b.PyInt?
  {
    match (a, b)
    case (PyInt(m), PyInt(n)) => Compared(m > n)
    case (PyPair(m1, s1), PyPair(m2, s2)) => Compared(m1 > m2 || (m1 == m2 && s1 > s2))
    case _ => TypeError
  }

  /** The loop test of pruneall as written: the pair a sweep returns,
      compared with 0. */
  function PruneAllTest(g: Grid): Comparison
  {
    var p := Prune(g);
    GreaterThan(PyPair(p.modified, p.solved), PyInt(0))
  }

  /** As written, the test raises on every board, before a second sweep. */
  lemma PruneAllRaises(g: Grid)
    ensures PruneAllTest(g) == TypeError
  {
  }
}
