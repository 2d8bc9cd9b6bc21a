/** Candidate sets and whole-board snapshots.  A cell holds the set of digits
    still possible for it; a board is the sequence of its 81 candidate sets,
    indexed by cell number. */
module Cells {
  import opened Geometry

  /** The candidates of a cell nothing is known about yet. */
  const Digits: set<int> := {1, 2, 3, 4, 5, 6, 7, 8, 9}

  /** The candidate sets of all 81 cells, by cell number. */
  type Grid = g: seq<set<int>> | |g| == Size witness seq(Size, _ => {})

  /** A cell is fixed when exactly one candidate is left. */
  predicate IsFixed(s: set<int>)
  {
    |s| == 1
  }

  lemma SingletonMembers(s: set<int>, v: int)
    requires IsFixed(s) && v in s
    ensures s == {v}
  {
    assert |s - {v}| == 0;
  }

  lemma HasMember(s: set<int>)
    requires s != {}
    ensures exists v :: v in s
  {
    if forall v :: v !in s {
      assert false;
    }
  }

  /** The value of a fixed cell. */
  function FixedValue(s: set<int>): (v: int)
    requires IsFixed(s)
    ensures s == {v}
  {
    HasMember(s);
    var v :| v in s;
    SingletonMembers(s, v);
    v
  }

  /** Every cell is fixed. */
  predicate IsSolved(g: Grid)
  {
    forall i :: 0 <= i < Size ==> IsFixed(g[i])
  }

  /** No cell has run out of candidates (a fixed value may still clash with
      a neighbour's). */
  predicate IsValid(g: Grid)
  {
    forall i :: 0 <= i < Size ==> g[i] != {}
  }

  /** h arises from g by removing candidates only. */
  predicate Shrinks(h: Grid, g: Grid)
  {
    forall i :: 0 <= i < Size ==> h[i] <= g[i]
  }

  lemma SolvedIsValid(g: Grid)
    requires IsSolved(g)
    ensures IsValid(g)
  {
    forall i | 0 <= i < Size
      ensures g[i] != {}
    {
      assert |g[i]| == 1;
    }
  }

  /** Removing candidates never repairs a contradiction. */
  lemma InvalidPersists(g: Grid, h: Grid)
    requires Shrinks(h, g) && !IsValid(g)
    ensures !IsValid(h)
  {
    var i :| 0 <= i < Size && g[i] == {};
    assert h[i] <= g[i];
  }

  lemma ShrinksTransitive(a: Grid, b: Grid, c: Grid)
    requires Shrinks(a, b) && Shrinks(b, c)
    ensures Shrinks(a, c)
  {
  }

  /** The candidate sets of the listed cells, in order. */
  function CellsAt(g: Grid, ns: seq<nat>): (r: seq<set<int>>)
    requires InBoard(ns)
    ensures |r| == |ns| && forall k :: 0 <= k < |ns| ==> r[k] == g[ns[k]]
  {
    seq(|ns|, k requires 0 <= k < |ns| => g[ns[k]])
  }

  /** Every candidate of any of the cells (their union). */
  function Options(cells: seq<set<int>>): (r: set<int>)
    decreases |cells|
  {
    if cells == [] then {} else Options(cells[..|cells| - 1]) + cells[|cells| - 1]
  }

  /** The values of the fixed cells among them. */
  function FixedValues(cells: seq<set<int>>): (r: set<int>)
    decreases |cells|
  {
    if cells == [] then {}
    else
      var last := cells[|cells| - 1];
      FixedValues(cells[..|cells| - 1]) + if IsFixed(last) then last else {}
  }

  /** The digits not in `values`. */
  function Complement(values: set<int>): (r: set<int>)
  {
    Digits - values
  }

  /** A value is an option exactly when some cell has it as a candidate. */
  lemma {:induction false} OptionsMembers(cells: seq<set<int>>, v: int)
    ensures v in Options(cells) <==> exists k :: 0 <= k < |cells| && v in cells[k]
    decreases |cells|
  {
    if cells != [] {
      var init := cells[..|cells| - 1];
      OptionsMembers(init, v);
      if exists k :: 0 <= k < |init| && v in init[k] {
        var k :| 0 <= k < |init| && v in init[k];
        assert v in cells[k];
      }
    }
  }

  /** A value is a fixed value exactly when some fixed cell holds it. */
  lemma {:induction false} FixedValuesMembers(cells: seq<set<int>>, v: int)
    ensures v in FixedValues(cells) <==> exists k :: 0 <= k < |cells| && IsFixed(cells[k]) && v in cells[k]
    decreases |cells|
  {
    if cells != [] {
      var init := cells[..|cells| - 1];
      FixedValuesMembers(init, v);
      if exists k :: 0 <= k < |init| && IsFixed(init[k]) && v in init[k] {
        var k :| 0 <= k < |init| && IsFixed(init[k]) && v in init[k];
        assert cells[k] == init[k];
      }
    }
  }

  /** A fixed cell's value is among the options, and on fully fixed cells
      the two coincide. */
  lemma FixedValuesWithinOptions(cells: seq<set<int>>)
    ensures FixedValues(cells) <= Options(cells)
    ensures (forall k :: 0 <= k < |cells| ==> IsFixed(cells[k])) ==> FixedValues(cells) == Options(cells)
  {
    forall v | v in FixedValues(cells)
      ensures v in Options(cells)
    {
      FixedValuesMembers(cells, v);
      OptionsMembers(cells, v);
    }
    if forall k :: 0 <= k < |cells| ==> IsFixed(cells[k]) {
      forall v | v in Options(cells)
        ensures v in FixedValues(cells)
      {
        OptionsMembers(cells, v);
        FixedValuesMembers(cells, v);
      }
    }
  }

  /** Complement is an involution on sets of digits and splits the digits. */
  lemma ComplementInvolution(values: set<int>)
    ensures Complement(Complement(values)) == values * Digits
    ensures Complement(values) * values == {}
    ensures Complement(values) + values * Digits == Digits
  {
  }

  /** Total number of candidates left on the board. */
  function Total(s: seq<set<int>>): nat
    decreases |s|
  {
    if s == [] then 0 else Total(s[..|s| - 1]) + |s[|s| - 1]|
  }

  /** Replacing one candidate set changes the total by the difference in size. */
  lemma {:induction false} TotalUpdate(s: seq<set<int>>, i: nat, t: set<int>)
    requires i < |s|
    ensures Total(s[i := t]) + |s[i]| == Total(s) + |t|
    decreases |s|
  {
    var n := |s| - 1;
    if i < n {
      assert s[i := t][..n] == s[..n][i := t];
      TotalUpdate(s[..n], i, t);
    } else {
      assert s[i := t][..n] == s[..n];
    }
  }

  /** Removing candidates lowers the total, and leaves it equal only when
      nothing was removed. */
  lemma {:induction false} TotalShrinks(a: seq<set<int>>, b: seq<set<int>>)
    requires |a| == |b| && forall i :: 0 <= i < |a| ==> a[i] <= b[i]
    ensures Total(a) <= Total(b)
    ensures Total(a) == Total(b) ==> a == b
    decreases |a|
  {
    if a != [] {
      var n := |a| - 1;
      TotalShrinks(a[..n], b[..n]);
      assert |b[n]| == |b[n] - a[n]| + |a[n]|;
      if Total(a) == Total(b) {
        assert b[n] - a[n] == {};
        assert a[n] == b[n];
        assert a == a[..n] + [a[n]] && b == b[..n] + [b[n]];
      }
    }
  }
}
