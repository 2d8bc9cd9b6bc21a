/** Board geometry: the 81 cells of a 9x9 board are numbered row-major,
    cell (x, y) having number x + y*9.  Rows, columns and 3x3 boxes are
    given as the sequence of cell numbers of the OTHER members of the unit,
    in the order in which the solver enumerates them. */
module Geometry {

  const Side: nat := 9
  const Size: nat := 81

  /** The number of cell (x, y).  Callers keep x + y*9 below Size; x itself
      is not bounds-checked (a long input line spills into the next row). */
  function Index(x: nat, y: nat): nat
  {
    x + y * 9
  }

  /** Every cell number of the sequence is on the board. */
  predicate InBoard(ns: seq<nat>)
  {
    forall k :: 0 <= k < |ns| ==> ns[k] < Size
  }

  /** Cell numbers and coordinates are inverse to each other. */
  lemma IndexCoordinates(x: nat, y: nat)
    requires x < Side && y < Side
    ensures Index(x, y) < Size
    ensures Index(x, y) % 9 == x && Index(x, y) / 9 == y
  {
  }

  lemma CoordinatesIndex(i: nat)
    requires i < Size
    ensures i % 9 < Side && i / 9 < Side
    ensures Index(i % 9, i / 9) == i
  {
  }

  /** The k-th of the numbers 0..8 once `a` is left out. */
  function Skip(k: nat, a: nat): nat
  {
    if k < a then k else k + 1
  }

  predicate SameRow(i: nat, j: nat) { i / 9 == j / 9 }
  predicate SameCol(i: nat, j: nat) { i % 9 == j % 9 }
  predicate SameBox(i: nat, j: nat) { i % 9 / 3 == j % 9 / 3 && i / 9 / 3 == j / 9 / 3 }

  /** j is a neighbour of i: another cell of one of i's row, column or box. */
  predicate IsPeer(i: nat, j: nat)
  {
    j < Size && j != i && (SameRow(i, j) || SameCol(i, j) || SameBox(i, j))
  }

  /** The other cells of row y, left to right. */
  function Row(x: nat, y: nat): (r: seq<nat>)
    requires x < Side && y < Side
    ensures |r| == 8 && InBoard(r)
  {
    seq(8, k requires 0 <= k < 8 => Index(Skip(k, x), y))
  }

  /** The other cells of column x, top to bottom. */
  function Col(x: nat, y: nat): (r: seq<nat>)
    requires x < Side && y < Side
    ensures |r| == 8 && InBoard(r)
  {
    seq(8, k requires 0 <= k < 8 => Index(x, Skip(k, y)))
  }

  /** The other cells of the 3x3 box of (x, y), row-major within the box. */
  function Box(x: nat, y: nat): (r: seq<nat>)
    requires x < Side && y < Side
    ensures |r| == 8 && InBoard(r)
  {
    var own := x % 3 + 3 * (y % 3);
    seq(8, k requires 0 <= k < 8 => BoxCell(x, y, Skip(k, own)))
  }

  /** Box, then row, then column: cells shared by two units appear twice. */
  function Neighbours(x: nat, y: nat): (r: seq<nat>)
    requires x < Side && y < Side
    ensures |r| == 24 && InBoard(r)
  {
    Box(x, y) + Row(x, y) + Col(x, y)
  }

  /** The neighbours of cell number i. */
  function Peers(i: nat): (r: seq<nat>)
    requires i < Size
    ensures |r| == 24 && InBoard(r)
  {
    CoordinatesIndex(i);
    Neighbours(i % 9, i / 9)
  }

  predicate Distinct(s: seq<nat>)
  {
    forall a, b :: 0 <= a < b < |s| ==> s[a] != s[b]
  }

  lemma RowMembers(x: nat, y: nat)
    requires x < Side && y < Side
    ensures Distinct(Row(x, y))
    ensures forall i: nat :: i in Row(x, y) <==> i < Size && i / 9 == y && i % 9 != x
  {
    var r := Row(x, y);
    forall k | 0 <= k < 8
      ensures r[k] < Size && r[k] / 9 == y && r[k] % 9 == Skip(k, x) != x
    {
      IndexCoordinates(Skip(k, x), y);
    }
    forall i: nat | i < Size && i / 9 == y && i % 9 != x
      ensures i in r
    {
      var a: nat := i % 9;
      var k: nat := if a < x then a else a - 1;
      assert Skip(k, x) == a;
      assert i == a + y * 9;
      assert r[k] == i;
    }
  }

  lemma ColMembers(x: nat, y: nat)
    requires x < Side && y < Side
    ensures Distinct(Col(x, y))
    ensures forall i: nat :: i in Col(x, y) <==> i < Size && i % 9 == x && i / 9 != y
  {
    var r := Col(x, y);
    forall k | 0 <= k < 8
      ensures r[k] < Size && r[k] % 9 == x && r[k] / 9 == Skip(k, y) != y
    {
      IndexCoordinates(x, Skip(k, y));
    }
    forall i: nat | i < Size && i % 9 == x && i / 9 != y
      ensures i in r
    {
      var b: nat := i / 9;
      var k: nat := if b < y then b else b - 1;
      assert Skip(k, y) == b;
      assert i == x + b * 9;
      assert r[k] == i;
    }
  }

  /** Cell j (0..8, row-major) of the box holding (x, y). */
  function BoxCell(x: nat, y: nat, j: nat): nat
  {
    Index(x / 3 * 3 + j % 3, y / 3 * 3 + j / 3)
  }

  lemma BoxCellCoordinates(x: nat, y: nat, j: nat)
    requires x < Side && y < Side && j < 9
    ensures BoxCell(x, y, j) < Size
    ensures BoxCell(x, y, j) % 9 == x / 3 * 3 + j % 3 && BoxCell(x, y, j) / 9 == y / 3 * 3 + j / 3
    ensures BoxCell(x, y, j) % 9 / 3 == x / 3 && BoxCell(x, y, j) / 9 / 3 == y / 3
    ensures BoxCell(x, y, j) == Index(x, y) <==> j == x % 3 + 3 * (y % 3)
  {
    IndexCoordinates(x / 3 * 3 + j % 3, y / 3 * 3 + j / 3);
  }

  lemma BoxCellInjective(x: nat, y: nat, j1: nat, j2: nat)
    requires x < Side && y < Side && j1 < 9 && j2 < 9 && j1 != j2
    ensures BoxCell(x, y, j1) != BoxCell(x, y, j2)
  {
    BoxCellCoordinates(x, y, j1);
    BoxCellCoordinates(x, y, j2);
  }

  lemma BoxElements(x: nat, y: nat)
    requires x < Side && y < Side
    ensures forall k :: 0 <= k < 8 ==> Box(x, y)[k] == BoxCell(x, y, Skip(k, x % 3 + 3 * (y % 3)))
  {
  }

  lemma BoxMembers(x: nat, y: nat)
    requires x < Side && y < Side
    ensures Distinct(Box(x, y))
    ensures forall i: nat :: i in Box(x, y) <==>
      i < Size && i != Index(x, y) && i % 9 / 3 == x / 3 && i / 9 / 3 == y / 3
  {
    var r := Box(x, y);
    var own := x % 3 + 3 * (y % 3);
    BoxElements(x, y);
    forall k | 0 <= k < 8
      ensures r[k] < Size && r[k] != Index(x, y)
      ensures r[k] % 9 / 3 == x / 3 && r[k] / 9 / 3 == y / 3
    {
      BoxCellCoordinates(x, y, Skip(k, own));
    }
    forall a, b | 0 <= a < b < 8
      ensures r[a] != r[b]
    {
      BoxCellInjective(x, y, Skip(a, own), Skip(b, own));
    }
    forall i: nat | i < Size && i != Index(x, y) && i % 9 / 3 == x / 3 && i / 9 / 3 == y / 3
      ensures i in r
    {
      BoxComplete(x, y, i);
    }
  }

  lemma BoxComplete(x: nat, y: nat, i: nat)
    requires x < Side && y < Side
    requires i < Size && i != Index(x, y) && i % 9 / 3 == x / 3 && i / 9 / 3 == y / 3
    ensures i in Box(x, y)
  {
    var cx, cy := i % 9, i / 9;
    CoordinatesIndex(i);
    var own := x % 3 + 3 * (y % 3);
    var j := cx % 3 + 3 * (cy % 3);
    Digits3(cx % 3, cy % 3);
    Digits3(cx % 3, x / 3);
    Digits3(cy % 3, y / 3);
    BoxCellCoordinates(x, y, j);
    assert BoxCell(x, y, j) == i;
    var k: nat := if j < own then j else j - 1;
    assert Skip(k, own) == j;
    assert Box(x, y)[k] == i;
  }

  /** The two digits of a two-digit base-3 numeral. */
  lemma Digits3(a: nat, b: nat)
    requires a < 3
    ensures (a + 3 * b) % 3 == a && (a + 3 * b) / 3 == b
    ensures (b * 3 + a) % 3 == a && (b * 3 + a) / 3 == b
  {
  }

  /** Being a neighbour is exactly sharing a row, a column or a box. */
  lemma PeersMembers(i: nat)
    requires i < Size
    ensures forall j: nat :: j in Peers(i) <==> IsPeer(i, j)
  {
    var x, y := i % 9, i / 9;
    CoordinatesIndex(i);
    RowMembers(x, y);
    ColMembers(x, y);
    BoxMembers(x, y);
  }

  /** Neighbourhood is symmetric. */
  lemma PeersSymmetric(i: nat, j: nat)
    requires i < Size && j in Peers(i)
    ensures j < Size && i in Peers(j)
  {
    PeersMembers(i);
    PeersMembers(j);
  }

  function Elements(s: seq<nat>): set<nat>
  {
    set j | j in s
  }

  lemma {:induction false} DistinctElements(s: seq<nat>)
    requires Distinct(s)
    ensures |Elements(s)| == |s|
    decreases |s|
  {
    if s != [] {
      var init := s[..|s| - 1];
      assert Distinct(init);
      DistinctElements(init);
      assert Elements(s) == Elements(init) + {s[|s| - 1]};
      assert s[|s| - 1] !in Elements(init);
    }
  }

  /** The four box neighbours that share neither the row nor the column of (x, y). */
  function BoxOnly(x: nat, y: nat): (r: seq<nat>)
    requires x < Side && y < Side
    ensures |r| == 4
  {
    seq(4, k requires 0 <= k < 4 => Index(x / 3 * 3 + Skip(k % 2, x % 3), y / 3 * 3 + Skip(k / 2, y % 3)))
  }

  lemma BoxOnlyMembers(x: nat, y: nat)
    requires x < Side && y < Side
    ensures Distinct(BoxOnly(x, y))
    ensures forall j: nat :: j in BoxOnly(x, y) <==>
      j < Size && j % 9 / 3 == x / 3 && j / 9 / 3 == y / 3 && j % 9 != x && j / 9 != y
  {
    var r := BoxOnly(x, y);
    forall k | 0 <= k < 4
      ensures r[k] < Size && r[k] % 9 / 3 == x / 3 && r[k] / 9 / 3 == y / 3 && r[k] % 9 != x && r[k] / 9 != y
      ensures r[k] % 9 % 3 == Skip(k % 2, x % 3) && r[k] / 9 % 3 == Skip(k / 2, y % 3)
    {
      BoxOnlyCell(x, y, k);
    }
    forall j: nat | j < Size && j % 9 / 3 == x / 3 && j / 9 / 3 == y / 3 && j % 9 != x && j / 9 != y
      ensures j in r
    {
      BoxOnlyComplete(x, y, j);
    }
  }

  lemma BoxOnlyCell(x: nat, y: nat, k: nat)
    requires x < Side && y < Side && k < 4
    ensures var c := BoxOnly(x, y)[k];
      c < Size && c % 9 / 3 == x / 3 && c / 9 / 3 == y / 3 && c % 9 != x && c / 9 != y &&
      c % 9 % 3 == Skip(k % 2, x % 3) && c / 9 % 3 == Skip(k / 2, y % 3)
  {
    var a, b := Skip(k % 2, x % 3), Skip(k / 2, y % 3);
    IndexCoordinates(x / 3 * 3 + a, y / 3 * 3 + b);
    Digits3(a, x / 3);
    Digits3(b, y / 3);
    Digits3(x % 3, x / 3);
    Digits3(y % 3, y / 3);
  }

  lemma BoxOnlyComplete(x: nat, y: nat, j: nat)
    requires x < Side && y < Side
    requires j < Size && j % 9 / 3 == x / 3 && j / 9 / 3 == y / 3 && j % 9 != x && j / 9 != y
    ensures j in BoxOnly(x, y)
  {
    var cx, cy := j % 9, j / 9;
    CoordinatesIndex(j);
    var a, b := cx % 3, cy % 3;
    Digits3(a, x / 3);
    Digits3(b, y / 3);
    Digits3(x % 3, x / 3);
    Digits3(y % 3, y / 3);
    var ka: nat := if a < x % 3 then a else a - 1;
    var kb: nat := if b < y % 3 then b else b - 1;
    var k := ka + 2 * kb;
    assert k % 2 == ka && k / 2 == kb;
    assert Skip(ka, x % 3) == a && Skip(kb, y % 3) == b;
    assert cx == x / 3 * 3 + a && cy == y / 3 * 3 + b;
    assert BoxOnly(x, y)[k] == j;
  }

  /** Row, column and the four remaining box cells, without repetition. */
  function DistinctPeers(x: nat, y: nat): (r: seq<nat>)
    requires x < Side && y < Side
    ensures |r| == 20
  {
    Row(x, y) + Col(x, y) + BoxOnly(x, y)
  }

  lemma DistinctPeersDistinct(x: nat, y: nat)
    requires x < Side && y < Side
    ensures Distinct(DistinctPeers(x, y))
  {
    var s := DistinctPeers(x, y);
    RowMembers(x, y);
    ColMembers(x, y);
    BoxOnlyMembers(x, y);
    forall a, b | 0 <= a < b < 20
      ensures s[a] != s[b]
    {
      if b < 8 {
        assert s[a] == Row(x, y)[a] && s[b] == Row(x, y)[b];
      } else if b < 16 {
        assert s[b] == Col(x, y)[b - 8] && s[b] in Col(x, y);
        if a >= 8 { assert s[a] == Col(x, y)[a - 8]; } else { assert s[a] in Row(x, y); }
      } else {
        assert s[b] == BoxOnly(x, y)[b - 16] && s[b] in BoxOnly(x, y);
        if a >= 16 {
          assert s[a] == BoxOnly(x, y)[a - 16];
        } else if a >= 8 {
          assert s[a] in Col(x, y);
        } else {
          assert s[a] in Row(x, y);
        }
      }
    }
  }

  lemma DistinctPeersCover(i: nat)
    requires i < Size
    ensures Elements(DistinctPeers(i % 9, i / 9)) == Elements(Peers(i))
  {
    var x, y := i % 9, i / 9;
    CoordinatesIndex(i);
    var s := DistinctPeers(x, y);
    RowMembers(x, y);
    ColMembers(x, y);
    BoxOnlyMembers(x, y);
    PeersMembers(i);
    forall j: nat
      ensures j in Elements(s) <==> j in Elements(Peers(i))
    {
      assert j in s <==> j in Row(x, y) || j in Col(x, y) || j in BoxOnly(x, y);
    }
  }

  /** The 24 neighbours visited cover exactly 20 distinct cells. */
  lemma PeersCount(i: nat)
    requires i < Size
    ensures |Elements(Peers(i))| == 20
  {
    CoordinatesIndex(i);
    DistinctPeersDistinct(i % 9, i / 9);
    DistinctElements(DistinctPeers(i % 9, i / 9));
    DistinctPeersCover(i);
  }
}
