/** Branching search.  After settling the board, the unfixed cells are tried
    in order of their number of candidates (a stable sort of the cells in
    row-major order).  For each candidate v of a cell, a copy of the board has
    the cell fixed to v and receives one hidden-single sweep; the first copy
    whose sweep fixes at least one cell is adopted. */
module Search {
  import opened Geometry
  import opened Cells
  import opened HiddenSingles

  /** The three ways a search can end: the board it keeps is solved, it is
      not, or no branch was adopted. */
  datatype Verdict = Solved | Unsolved | NoBranch

  /** The answer reported for a kept board. */
  function Answer(h: Grid): (r: Verdict)
    ensures r != NoBranch && (r == Solved <==> IsSolved(h))
  {
    if IsSolved(h) then Solved else Unsolved
  }

  /** Cell a comes before cell b: fewer candidates, or as many and earlier in
      row-major order. */
  predicate Less(g: Grid, a: nat, b: nat)
  {
    a < Size && b < Size && (|g[a]| < |g[b]| || (|g[a]| == |g[b]| && a < b))
  }

  predicate Ordered(g: Grid, s: seq<nat>)
  {
    forall m, n :: 0 <= m < n < |s| ==> Less(g, s[m], s[n])
  }

  lemma LessTransitive(g: Grid, a: nat, b: nat, c: nat)
    requires Less(g, a, b) && Less(g, b, c)
    ensures Less(g, a, c)
  {
  }

  /** The unfixed cells among 0 .. k-1, in row-major order. */
  function Unfixed(g: Grid, k: nat): seq<nat>
    requires k <= Size
    decreases k
  {
    if k == 0 then []
    else
      var prev := Unfixed(g, k - 1);
      if IsFixed(g[k - 1]) then prev else prev + [k - 1]
  }

  /** Unfixed lists exactly the unfixed cells below k, in increasing order. */
  lemma {:induction false} UnfixedSpec(g: Grid, k: nat)
    requires k <= Size
    ensures forall j: nat :: j in Unfixed(g, k) <==> j < k && !IsFixed(g[j])
    ensures forall m :: 0 <= m < |Unfixed(g, k)| ==> Unfixed(g, k)[m] < k
    ensures forall m, n :: 0 <= m < n < |Unfixed(g, k)| ==> Unfixed(g, k)[m] < Unfixed(g, k)[n]
    decreases k
  {
    if k > 0 {
      UnfixedSpec(g, k - 1);
    }
  }

  /** Places x in front of the first cell that x comes before. */
  function Insert(g: Grid, x: nat, s: seq<nat>): (r: seq<nat>)
    ensures multiset(r) == multiset(s) + multiset{x}
    decreases |s|
  {
    if s == [] then [x]
    else if Less(g, x, s[0]) then [x] + s
    else
      assert s == [s[0]] + s[1..];
      [s[0]] + Insert(g, x, s[1..])
  }

  /** Insertion sort by candidate count, taking the cells in their order. */
  function SortByCount(g: Grid, s: seq<nat>): (r: seq<nat>)
    ensures multiset(r) == multiset(s)
    decreases |s|
  {
    if s == [] then []
    else
      var init := s[..|s| - 1];
      assert s == init + [s[|s| - 1]];
      Insert(g, s[|s| - 1], SortByCount(g, init))
  }

  /** The order in which the search tries the cells. */
  function BranchOrder(g: Grid): (r: seq<nat>)
    ensures InBoard(r)
  {
    var cs := Unfixed(g, |g|);
    UnfixedSpec(g, |g|);
    SortBounded(g, cs);
    SortByCount(g, cs)
  }

  lemma SortBounded(g: Grid, s: seq<nat>)
    requires InBoard(s)
    ensures InBoard(SortByCount(g, s))
  {
    var r := SortByCount(g, s);
    forall k | 0 <= k < |r|
      ensures r[k] < Size
    {
      assert r[k] in multiset(s);
      var j :| 0 <= j < |s| && s[j] == r[k];
    }
  }

  lemma {:induction false} InsertOrdered(g: Grid, x: nat, s: seq<nat>)
    requires x < Size && Ordered(g, s)
    requires InBoard(s) && x !in s
    ensures Ordered(g, Insert(g, x, s))
    decreases |s|
  {
    if s != [] && !Less(g, x, s[0]) {
      var tail := s[1..];
      InsertOrdered(g, x, tail);
      var rest := Insert(g, x, tail);
      assert Less(g, s[0], x);
      forall n | 0 <= n < |rest|
        ensures Less(g, s[0], rest[n])
      {
        assert rest[n] in multiset(rest);
        if rest[n] != x {
          assert rest[n] in multiset(tail);
          var k :| 0 <= k < |tail| && tail[k] == rest[n];
          assert s[k + 1] == rest[n];
        }
      }
      PrependOrdered(g, s[0], rest);
    } else if s != [] {
      forall n | 0 <= n < |s|
        ensures Less(g, x, s[n])
      {
        if n > 0 {
          LessTransitive(g, x, s[0], s[n]);
        }
      }
      PrependOrdered(g, x, s);
    }
  }

  lemma PrependOrdered(g: Grid, h: nat, s: seq<nat>)
    requires Ordered(g, s) && forall n :: 0 <= n < |s| ==> Less(g, h, s[n])
    ensures Ordered(g, [h] + s)
  {
    var r := [h] + s;
    forall m, n | 0 <= m < n < |r|
      ensures Less(g, r[m], r[n])
    {
      assert r[n] == s[n - 1];
      if m > 0 {
        assert r[m] == s[m - 1];
      }
    }
  }

  lemma {:induction false} SortOrdered(g: Grid, s: seq<nat>)
    requires InBoard(s)
    requires forall m, n :: 0 <= m < n < |s| ==> s[m] != s[n]
    ensures Ordered(g, SortByCount(g, s))
    decreases |s|
  {
    if s != [] {
      var init, x := s[..|s| - 1], s[|s| - 1];
      SortOrdered(g, init);
      var sorted := SortByCount(g, init);
      forall k | 0 <= k < |sorted|
        ensures sorted[k] < Size && sorted[k] != x
      {
        assert sorted[k] in multiset(init);
        var j :| 0 <= j < |init| && init[j] == sorted[k];
        assert s[j] == sorted[k];
      }
      InsertOrdered(g, x, sorted);
    }
  }

  lemma SameElements(a: seq<nat>, b: seq<nat>)
    requires multiset(a) == multiset(b)
    ensures forall j :: j in a <==> j in b
  {
    forall j
      ensures j in a <==> j in b
    {
      assert j in a <==> j in multiset(a);
      assert j in b <==> j in multiset(b);
    }
  }

  /** The search tries exactly the unfixed cells, each once, by
      non-decreasing candidate count and, among equals, in row-major order. */
  lemma BranchOrderSpec(g: Grid)
    ensures forall j: nat :: j in BranchOrder(g) <==> j < Size && !IsFixed(g[j])
    ensures Ordered(g, BranchOrder(g))
  {
    var cs := Unfixed(g, |g|);
    UnfixedSpec(g, |g|);
    SortOrdered(g, cs);
    SameElements(BranchOrder(g), cs);
  }

  /** The board a branch ends with: cell c fixed to v, then one sweep. */
  function Branch(p: Grid, c: nat, v: int): Tally
    requires c < Size
  {
    HiddenSingles.Solve(p[c := {v}])
  }

  /** A branch is adopted when its sweep fixes at least one cell. */
  predicate Fires(p: Grid, c: nat, v: int)
    requires c < Size
  {
    Branch(p, c, v).solved > 0
  }

  /** A branch keeps its choice, removes candidates only, and fires exactly
      when its sweep changed the board it started from. */
  lemma BranchSpec(p: Grid, c: nat, v: int)
    requires c < Size && v in p[c]
    ensures Branch(p, c, v).cells[c] == {v}
    ensures Shrinks(Branch(p, c, v).cells, p)
    ensures Fires(p, c, v) <==> Branch(p, c, v).cells != p[c := {v}]
  {
    var start := p[c := {v}];
    SolveCounts(start);
    SweepFacts(p, c, v, start, Branch(p, c, v));
  }

  lemma SweepFacts(p: Grid, c: nat, v: int, start: Grid, end: Tally)
    requires c < Size && v in p[c] && start == p[c := {v}]
    requires Shrinks(end.cells, start) && end.solved == |Changed(start, end.cells)|
    requires forall j :: 0 <= j < Size && end.cells[j] != start[j] ==> !IsFixed(start[j])
    ensures end.cells[c] == {v}
    ensures Shrinks(end.cells, p)
    ensures end.solved > 0 <==> end.cells != start
  {
    assert end.cells[c] == start[c];
    forall j | 0 <= j < Size
      ensures end.cells[j] <= p[j]
    {
      assert end.cells[j] <= start[j];
    }
    if end.cells != start {
      var j :| 0 <= j < Size && end.cells[j] != start[j];
      assert j in Changed(start, end.cells);
    } else {
      assert Changed(start, end.cells) == {};
    }
  }

  /** None of the branches at the first k positions of the order fires. */
  predicate NoneFiresBefore(p: Grid, k: nat)
  {
    var order := BranchOrder(p);
    forall m, v :: 0 <= m < k && m < |order| && v in p[order[m]] ==> !Fires(p, order[m], v)
  }

  /** Fixing cell order[k] to v fires, and no branch at an earlier position
      does.  (Candidates of order[k] itself are tried in an unspecified
      order, so nothing is said about its other candidates.) */
  predicate Adopted(p: Grid, k: nat, v: int)
  {
    var order := BranchOrder(p);
    k < |order| && v in p[order[k]] && Fires(p, order[k], v) && NoneFiresBefore(p, k)
  }

  /** What a search from the settled board p may end with, h being the board
      it keeps: a solved or contradictory p is kept and reported at once;
      otherwise either the first branch that fires is kept and reported, or
      no branch fires and p is kept with no verdict. */
  ghost predicate SearchResult(p: Grid, h: Grid, r: Verdict)
  {
    if IsSolved(p) || !IsValid(p) then h == p && r == Answer(p)
    else if r == NoBranch then h == p && NoneFiresBefore(p, |BranchOrder(p)|)
    else r == Answer(h) && exists k: nat, v :: Adopted(p, k, v) && h == Branch(p, BranchOrder(p)[k], v).cells
  }

  /** A search that adopts no branch has tried every candidate of every
      unfixed cell. */
  lemma NoBranchExhaustive(p: Grid)
    requires NoneFiresBefore(p, |BranchOrder(p)|)
    ensures forall c, v :: 0 <= c < Size && !IsFixed(p[c]) && v in p[c] ==> !Fires(p, c, v)
  {
    var order := BranchOrder(p);
    BranchOrderSpec(p);
    forall c, v | 0 <= c < Size && !IsFixed(p[c]) && v in p[c]
      ensures !Fires(p, c, v)
    {
      assert c in order;
      var m :| 0 <= m < |order| && order[m] == c;
    }
  }

  /** The kept board only ever loses candidates, an adopted branch keeps the
      cell it fixed, and "solved" is reported exactly for a solved board. */
  lemma SearchResultSpec(p: Grid, h: Grid, r: Verdict)
    requires SearchResult(p, h, r)
    ensures Shrinks(h, p)
    ensures r != NoBranch ==> (r == Solved <==> IsSolved(h))
    ensures r != NoBranch && !IsSolved(p) && IsValid(p) ==>
      exists c, v :: 0 <= c < Size && !IsFixed(p[c]) && v in p[c] && h[c] == {v}
  {
    if !IsSolved(p) && IsValid(p) && r != NoBranch {
      var k: nat, v :| Adopted(p, k, v) && h == Branch(p, BranchOrder(p)[k], v).cells;
      AdoptedSpec(p, k, v);
    }
  }

  lemma AdoptedSpec(p: Grid, k: nat, v: int)
    requires Adopted(p, k, v)
    ensures var c := BranchOrder(p)[k];
      !IsFixed(p[c]) && v in p[c] && Branch(p, c, v).cells[c] == {v} && Shrinks(Branch(p, c, v).cells, p)
  {
    var c := BranchOrder(p)[k];
    BranchOrderSpec(p);
    BranchSpec(p, c, v);
    assert c in BranchOrder(p);
  }

  /** The cells of the branch order are unfixed. */
  lemma UnfixedInOrder(p: Grid, k: nat)
    requires k < |BranchOrder(p)|
    ensures !IsFixed(p[BranchOrder(p)[k]])
  {
    BranchOrderSpec(p);
    assert BranchOrder(p)[k] in BranchOrder(p);
  }

  lemma EarlyResult(p: Grid)
    requires IsSolved(p) || !IsValid(p)
    ensures SearchResult(p, p, Answer(p))
  {
  }

  lemma AdoptedAt(p: Grid, k: nat, c: nat, v: int)
    requires k < |BranchOrder(p)| && c == BranchOrder(p)[k]
    requires NoneFiresBefore(p, k) && v in p[c] && Fires(p, c, v)
    ensures Adopted(p, k, v)
  {
  }

  lemma AdoptResult(p: Grid, k: nat, v: int, h: Grid)
    requires !IsSolved(p) && IsValid(p) && Adopted(p, k, v)
    requires h == Branch(p, BranchOrder(p)[k], v).cells
    ensures SearchResult(p, h, Answer(h))
  {
  }

  lemma NextPosition(p: Grid, k: nat, c: nat)
    requires k < |BranchOrder(p)| && c == BranchOrder(p)[k] && NoneFiresBefore(p, k)
    requires forall v :: v in p[c] ==> !Fires(p, c, v)
    ensures NoneFiresBefore(p, k + 1)
  {
  }

  lemma NoBranchResult(p: Grid)
    requires !IsSolved(p) && IsValid(p) && NoneFiresBefore(p, |BranchOrder(p)|)
    ensures SearchResult(p, p, NoBranch)
  {
  }
}
