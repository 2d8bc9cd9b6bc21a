/** Reading a puzzle from text.  The text is split at line feeds; line y,
    character x is cell x + 9 * y.  A digit fixes that cell to its value,
    any other character leaves the cell open.  The cell number is not
    checked against the row: a tenth character of a line lands in the next
    row, and a digit whose cell number is 81 or more is an error. */
module Parsing {
  import opened Geometry
  import opened Cells

  datatype Option<T> = None | Some(value: T)

  /** The text cut at every line feed (the line feeds dropped). */
  function Split(s: string): (r: seq<string>)
    ensures |r| >= 1
    decreases |s|
  {
    if s == [] then [[]]
    else
      var rest := Split(s[1..]);
      if s[0] == '\n' then [[]] + rest else [[s[0]] + rest[0]] + rest[1..]
  }

  /** The lines glued back with line feeds between them. */
  function Join(lines: seq<string>): string
    requires |lines| >= 1
    decreases |lines|
  {
    if |lines| == 1 then lines[0] else lines[0] + "\n" + Join(lines[1..])
  }

  predicate NoLineFeed(line: string)
  {
    forall k :: 0 <= k < |line| ==> line[k] != '\n'
  }

  /** No piece of the split holds a line feed. */
  lemma {:induction false} SplitLines(s: string)
    ensures forall k :: 0 <= k < |Split(s)| ==> NoLineFeed(Split(s)[k])
    decreases |s|
  {
    if s != [] {
      SplitLines(s[1..]);
    }
  }

  /** Gluing the pieces back gives the text. */
  lemma {:induction false} SplitJoin(s: string)
    ensures Join(Split(s)) == s
    decreases |s|
  {
    if s != [] {
      var rest := Split(s[1..]);
      SplitJoin(s[1..]);
      if s[0] != '\n' {
        var r := Split(s);
        if |rest| == 1 {
          assert r == [[s[0]] + rest[0]];
        } else {
          assert r[1..] == rest[1..];
          assert Join(rest) == rest[0] + "\n" + Join(rest[1..]);
        }
        assert s == [s[0]] + s[1..];
      } else {
        assert Split(s)[1..] == rest;
      }
    }
  }

  /** A line without line feeds followed by more text stays whole. */
  lemma {:induction false} SplitLeading(line: string, t: string)
    requires NoLineFeed(line)
    ensures Split(line + t) == [line + Split(t)[0]] + Split(t)[1..]
    decreases |line|
  {
    if line != [] {
      assert (line + t)[1..] == line[1..] + t;
      assert (line + t)[0] == line[0];
      SplitLeading(line[1..], t);
      var rest := Split(line[1..] + t);
      assert rest[0] == line[1..] + Split(t)[0];
      assert rest[1..] == Split(t)[1..];
      assert line + Split(t)[0] == [line[0]] + (line[1..] + Split(t)[0]);
    } else {
      assert line + t == t && line + Split(t)[0] == Split(t)[0];
      assert Split(t) == [Split(t)[0]] + Split(t)[1..];
    }
  }

  /** Splitting glued lines gives the lines back. */
  lemma {:induction false} JoinSplit(lines: seq<string>)
    requires |lines| >= 1
    requires forall k :: 0 <= k < |lines| ==> NoLineFeed(lines[k])
    ensures Split(Join(lines)) == lines
    decreases |lines|
  {
    if |lines| == 1 {
      SplitLeading(lines[0], "");
      assert lines[0] + "" == lines[0];
    } else {
      JoinSplit(lines[1..]);
      var tail := Join(lines[1..]);
      assert lines[0] + "\n" + tail == lines[0] + ("\n" + tail);
      SplitLeading(lines[0], "\n" + tail);
      assert ("\n" + tail)[1..] == tail;
      assert lines[0] + "" == lines[0];
      assert lines == [lines[0]] + lines[1..];
    }
  }

  /** The ASCII decimal digits. */
  predicate IsDigit(ch: char)
  {
    '0' <= ch <= '9'
  }

  function DigitValue(ch: char): (d: int)
    requires IsDigit(ch)
    ensures 0 <= d <= 9
  {
    ch as int - '0' as int
  }

  /** The board before any character is read: every digit possible. */
  function Fresh(): Grid
  {
    seq(Size, _ => Digits)
  }

  /** A digit whose cell number is past the board. */
  predicate Spills(ch: char, x: nat, y: nat)
  {
    IsDigit(ch) && Index(x, y) >= Size
  }

  /** Reads character ch at column x of line y. */
  function Place(h: Grid, ch: char, x: nat, y: nat): Option<Grid>
  {
    if !IsDigit(ch) then Some(h)
    else if Index(x, y) < Size then
      var placed: Grid := h[Index(x, y) := {DigitValue(ch)}];
      Some(placed)
    else None
  }

  /** The board after reading the first k characters of line y. */
  function PlaceLine(g: Grid, line: string, y: nat, k: nat): Option<Grid>
    requires k <= |line|
    decreases k
  {
    if k == 0 then Some(g)
    else
      match PlaceLine(g, line, y, k - 1)
      case None => None
      case Some(h) => Place(h, line[k - 1], k - 1, y)
  }

  /** The board after reading the first n lines. */
  function ParseLines(lines: seq<string>, n: nat): Option<Grid>
    requires n <= |lines|
    decreases n
  {
    if n == 0 then Some(Fresh())
    else
      match ParseLines(lines, n - 1)
      case None => None
      case Some(g) => PlaceLine(g, lines[n - 1], n - 1, |lines[n - 1]|)
  }

  /** The board read from a text, or None when a digit spills past it. */
  function ParseGrid(text: string): Option<Grid>
  {
    var lines := Split(text);
    ParseLines(lines, |lines|)
  }

  /** Reading a line fails exactly when one of its digits spills. */
  lemma {:induction false} PlaceLineFails(g: Grid, line: string, y: nat, k: nat)
    requires k <= |line|
    ensures PlaceLine(g, line, y, k).None? <==> exists x :: 0 <= x < k && Spills(line[x], x, y)
    decreases k
  {
    if k > 0 {
      PlaceLineFails(g, line, y, k - 1);
    }
  }

  /** Reading fails exactly when some line has a digit that spills. */
  lemma {:induction false} ParseLinesFails(lines: seq<string>, n: nat)
    requires n <= |lines|
    ensures ParseLines(lines, n).None? <==>
      exists y, x :: 0 <= y < n && 0 <= x < |lines[y]| && Spills(lines[y][x], x, y)
    decreases n
  {
    if n > 0 {
      ParseLinesFails(lines, n - 1);
      var prev := ParseLines(lines, n - 1);
      if prev.Some? {
        PlaceLineFails(prev.value, lines[n - 1], n - 1, |lines[n - 1]|);
      }
    }
  }

  lemma ParseFails(text: string)
    ensures ParseGrid(text).None? <==>
      exists y, x :: 0 <= y < |Split(text)| && 0 <= x < |Split(text)[y]| && Spills(Split(text)[y][x], x, y)
  {
    var lines := Split(text);
    ParseLinesFails(lines, |lines|);
    assert ParseGrid(text) == ParseLines(lines, |lines|);
    // One direction at a time: unaided, the verifier does not carry the existential
    // of ParseLinesFails over `lines` to the one stated over Split(text).
    assert ParseGrid(text).None? ==> exists y, x :: 0 <= y < |Split(text)| && 0 <= x < |Split(text)[y]| && Spills(Split(text)[y][x], x, y);
    assert ParseGrid(text).None? <== exists y, x :: 0 <= y < |Split(text)| && 0 <= x < |Split(text)[y]| && Spills(Split(text)[y][x], x, y);
  }

  lemma SpillFails(text: string, y: nat, x: nat)
    requires y < |Split(text)| && x < |Split(text)[y]| && Spills(Split(text)[y][x], x, y)
    ensures ParseGrid(text).None?
  {
    ParseFails(text);
  }

  /** A cell read from text is open or fixed to a decimal digit. */
  predicate ReadCell(s: set<int>)
  {
    s == Digits || exists d :: 0 <= d <= 9 && s == {d}
  }

  lemma {:induction false} PlaceLineCells(g: Grid, line: string, y: nat, k: nat)
    requires k <= |line|
    requires forall j :: 0 <= j < Size ==> ReadCell(g[j])
    ensures PlaceLine(g, line, y, k).Some? ==>
      forall j :: 0 <= j < Size ==> ReadCell(PlaceLine(g, line, y, k).value[j])
    decreases k
  {
    if k > 0 {
      PlaceLineCells(g, line, y, k - 1);
      var prev := PlaceLine(g, line, y, k - 1);
      if prev.Some? && IsDigit(line[k - 1]) && Index(k - 1, y) < Size {
        var d := DigitValue(line[k - 1]);
        assert ReadCell({d});
      }
    }
  }

  lemma {:induction false} ParseLinesCells(lines: seq<string>, n: nat)
    requires n <= |lines|
    ensures ParseLines(lines, n).Some? ==>
      forall j :: 0 <= j < Size ==> ReadCell(ParseLines(lines, n).value[j])
    decreases n
  {
    if n > 0 {
      ParseLinesCells(lines, n - 1);
      var prev := ParseLines(lines, n - 1);
      if prev.Some? {
        PlaceLineCells(prev.value, lines[n - 1], n - 1, |lines[n - 1]|);
      }
    }
  }

  /** Every cell of a board read from text is open or fixed to a digit
      0 .. 9 (a '0' fixes the cell to 0, which no rule removes). */
  lemma ParseCells(text: string)
    ensures ParseGrid(text).Some? ==> forall j :: 0 <= j < Size ==> ReadCell(ParseGrid(text).value[j])
  {
    var lines := Split(text);
    ParseLinesCells(lines, |lines|);
  }

  /** The candidates line y leaves in cell j after its first k characters. */
  function AfterLine(g: Grid, line: string, y: nat, k: nat, j: nat): set<int>
    requires k <= |line| && j < Size
  {
    if Index(0, y) <= j < Index(k, y) && IsDigit(line[j - Index(0, y)]) then {DigitValue(line[j - Index(0, y)])}
    else g[j]
  }

  /** A line with no spilling digit writes its characters into consecutive
      cells from the start of row y on. */
  lemma {:induction false} PlaceLineSpec(g: Grid, line: string, y: nat, k: nat)
    requires k <= |line|
    requires forall x :: 0 <= x < k ==> !Spills(line[x], x, y)
    ensures PlaceLine(g, line, y, k).Some?
    ensures forall j :: 0 <= j < Size ==> PlaceLine(g, line, y, k).value[j] == AfterLine(g, line, y, k, j)
    decreases k
  {
    if k > 0 {
      PlaceLineSpec(g, line, y, k - 1);
    }
  }

  /** A puzzle written on one line fills the board in row-major order. */
  lemma OneLine(line: string)
    requires NoLineFeed(line) && |line| <= Size
    ensures ParseGrid(line).Some?
    ensures forall j :: 0 <= j < Size ==>
      ParseGrid(line).value[j] == (if j < |line| && IsDigit(line[j]) then {DigitValue(line[j])} else Digits)
  {
    JoinSplit([line]);
    assert Split(line) == [line];
    PlaceLineSpec(Fresh(), line, 0, |line|);
  }

  /** The candidates of cell (x, y) of a puzzle written as at most nine lines
      of at most nine characters. */
  function Expected(lines: seq<string>, n: nat, x: nat, y: nat): set<int>
    requires n <= |lines|
  {
    if y < n && x < |lines[y]| && IsDigit(lines[y][x]) then {DigitValue(lines[y][x])} else Digits
  }

  predicate Square(lines: seq<string>)
  {
    |lines| <= 9 && forall y :: 0 <= y < |lines| ==> |lines[y]| <= 9
  }

  lemma {:induction false} ParseLinesSquare(lines: seq<string>, n: nat)
    requires n <= |lines| && Square(lines)
    ensures ParseLines(lines, n).Some?
    ensures forall x: nat, y: nat :: x < 9 && y < 9 ==>
      ParseLines(lines, n).value[Index(x, y)] == Expected(lines, n, x, y)
    decreases n
  {
    if n > 0 {
      ParseLinesSquare(lines, n - 1);
      var g := ParseLines(lines, n - 1).value;
      var line := lines[n - 1];
      PlaceLineSpec(g, line, n - 1, |line|);
      forall x: nat, y: nat | x < 9 && y < 9
        ensures ParseLines(lines, n).value[Index(x, y)] == Expected(lines, n, x, y)
      {
        IndexCoordinates(x, y);
        var j := Index(x, y);
        if y == n - 1 {
          assert j - Index(0, y) == x;
        } else if y < n - 1 {
          assert j < Index(0, n - 1);
        } else {
          assert j >= Index(0, n - 1) + 9;
        }
      }
    }
  }

  /** A puzzle of at most nine lines of at most nine characters is read
      without error, each digit fixing its own cell and every other cell
      left open. */
  lemma ParseSquare(text: string)
    requires Square(Split(text))
    ensures ParseGrid(text).Some?
    ensures var lines := Split(text);
      forall x: nat, y: nat :: x < 9 && y < 9 ==>
        ParseGrid(text).value[Index(x, y)] == Expected(lines, |lines|, x, y)
  {
    var lines := Split(text);
    ParseLinesSquare(lines, |lines|);
  }
}
