# A verified model of `sudoku.py`

`sudoku.py` solves 9×9 sudoku puzzles. A board holds 81 cells, each a set of
candidate digits. Four passes shrink the board:

- **prune**: an elimination sweep. The value of every fixed cell is discarded
  from its 24 neighbours (box, then row, then column).
- **pruneall**: repeats prune.
- **solve**: a hidden-single sweep. It fixes a cell when exactly one of its
  candidates is possible for no other cell of its row, its column or its box.
- **solve2**: propagates, then branches. It tries each candidate of each
  unfixed cell on a copy of the board. It adopts the first copy whose
  hidden-single sweep fixes something.

A parser turns text into a board.

This project models all of that in Dafny, in the program's own form:

- The board is a class over a mutable array. Prune, pruneall, solve,
  solve2, set, discard, clone and parse are methods. The sweeps, the search
  and parse keep the program's loops.
- Each method is proved against a function over board snapshots. The
  functions are `Elimination.Prune`, `Elimination.Settle`,
  `HiddenSingles.Solve`, `Search.SearchResult` and `Parsing.ParseGrid`.
- The properties the program relies on are lemmas about those functions.

Modules, bottom to top:

| module | file | contents |
|---|---|---|
| `Geometry` | geometry.dfy | cell numbering `x + 9*y`; the row, column and box sequences (8 other cells each, in the program's order); neighbours; their membership and the count of 20 distinct neighbours |
| `Cells` | cells.dfy | candidate sets and 81-cell snapshots; fixed, solved and valid; `options`, `fixed` and `complement` |
| `Elimination` | elimination.dfy | the prune sweep as a left fold over the cells; its soundness, monotonicity and fixpoint; `Settle` for pruneall; the as-written pruneall loop test |
| `HiddenSingles` | hidden_singles.dfy | the solve sweep as a left fold over the cells; which cells it fixes and why |
| `Search` | search.dfy | the branch order (a stable insertion sort by candidate count); what a branch does; what solve2 may end with |
| `Parsing` | parsing.dfy | splitting at line feeds; reading digits into cells, including the spill into the next row and the error past cell 80 |
| `Sudoku` | sudoku.dfy | the `Board` class and the module-level `Parse` method |

In two places the code differs from what a reader might expect. The model
follows the code:

- **The search.** A reader might expect a recursive search that picks one
  cell of fewest candidates and adopts a branch only once it is solved.
  Instead `solve2` walks every unfixed cell in a stable
  order by candidate count. For each candidate it calls the one-sweep `solve`
  on the copy, not `solve2`. It adopts the first copy whose sweep fixes at
  least one cell, whether or not the copy is solved. When no branch fires it
  falls through and returns `None`. The model has an explicit `NoBranch`
  verdict for that case.
- **Parsing.** A reader might expect digits 1–9 only, with characters past
  the ninth column ignored. Instead `isdigit` also accepts `0`, which gives the cell
  `{0}`. The cell number `x + 9*y` is not checked against the row, so a
  tenth character lands in the next row. A digit at cell 81 or later fails
  with an index error, which the model returns as `None`.

## Model

| member | source | states |
|---|---|---|
| Geometry.IndexCoordinates | sudoku.py:66-71 | for 0 ≤ x, y ≤ 8 the cell number x + 9y is below 81, and its column and row are recovered as number % 9 and number / 9 |
| Geometry.CoordinatesIndex | sudoku.py:58-61 | cell i of the board list has x = i % 9 and y = i / 9, both within 0..8, and x + 9y = i |
| Geometry.RowMembers | sudoku.py:190-191 | row(x, y) lists 8 distinct cells, exactly the cells of row y other than (x, y) |
| Geometry.ColMembers | sudoku.py:193-194 | col(x, y) lists 8 distinct cells, exactly the cells of column x other than (x, y) |
| Geometry.BoxMembers | sudoku.py:196-202 | box(x, y) lists 8 distinct cells, exactly the cells sharing x / 3 and y / 3 other than (x, y) |
| Geometry.Neighbours | sudoku.py:204-205 | neighbours lists 24 cells, all on the board |
| Geometry.PeersMembers | sudoku.py:204-205 | a cell is among the neighbours of i exactly when it is another cell of i's row, column or box |
| Geometry.PeersSymmetric | sudoku.py:204-205 | if j is a neighbour of i then i is a neighbour of j |
| Geometry.PeersCount | sudoku.py:204-205 | the 24 neighbours cover exactly 20 distinct cells |
| Cells.FixedValue | sudoku.py:35-36 | the value of a fixed cell is its one candidate: the set is exactly {v} |
| Cells.SolvedIsValid | sudoku.py:207-217 | a board whose every cell is fixed has no empty cell |
| Cells.InvalidPersists | sudoku.py:213-217 | a board with an empty cell still has one after candidates are removed (validity only goes from true to false) |
| Cells.OptionsMembers | sudoku.py:226-227 | v is in options(cells) exactly when some cell of the sequence has v as a candidate |
| Cells.FixedValuesMembers | sudoku.py:220-223 | v is in fixed(cells) exactly when some fixed cell of the sequence holds v |
| Cells.FixedValuesWithinOptions | sudoku.py:220-227 | fixed(cells) ⊆ options(cells), with equality when every cell is fixed |
| Cells.ComplementInvolution | sudoku.py:230-231 | complement of complement gives back the digits of the set; a set and its complement are disjoint and together make up 1..9 |
| Elimination.DiscardOne | sudoku.py:100-103 | one discard removes v from the cell; the removal counter plus the total candidate count is unchanged; the solved counter grows by at most what the removal counter grows |
| Elimination.DiscardAll | sudoku.py:99-103 | discarding v from a list of cells removes v from exactly the listed cells and leaves the others alone, with the same counter bookkeeping |
| Elimination.PruneUpTo | sudoku.py:92-106 | at every point of the sweep the board only lost candidates; `modified` equals the number of candidates removed; `solved ≤ modified` |
| Elimination.PruneMonotone | sudoku.py:92-106 | later states of a sweep hold subsets of the earlier candidate sets and a larger removal count |
| Elimination.PruneJustified | sudoku.py:96-100 | every candidate v removed from cell i was removed by a neighbour of i that was fixed to {v} when the sweep visited it |
| Elimination.PruneFixpoint | sudoku.py:92-106 | a sweep removes nothing exactly when no fixed cell's value is still a candidate of a neighbour, and then it leaves the board unchanged |
| Elimination.PruneIdempotent | sudoku.py:92-106 | after a sweep that removes nothing, another sweep gives the same result |
| Elimination.PruneDetectsClash | sudoku.py:92-106 | two neighbours both fixed to v leave some cell empty after one sweep, so the board is no longer valid |
| Elimination.Settle | sudoku.py:120-122 | the repeated sweeps terminate (on the total candidate count) and only remove candidates |
| Elimination.SettleFixpoint | sudoku.py:120-122 | the settled board is conflict-free, a further sweep removes nothing, and settling it again changes nothing |
| Elimination.GreaterThan | sudoku.py:121 | Python 3's `>` raises TypeError exactly when an int is compared with a pair |
| Elimination.PruneAllRaises | sudoku.py:121 | the loop test `self.prune() > 0` raises TypeError on every board |
| HiddenSingles.Check | sudoku.py:130-136 | a group check leaves the state alone, or fixes an unfixed cell to its only candidate hidden from the group and counts it |
| HiddenSingles.Visit | sudoku.py:128-154 | visiting cell i changes no other cell; it either changes nothing, or fixes the unfixed cell i to a subset of its candidates and counts one |
| HiddenSingles.SolveUpTo | sudoku.py:124-155 | during the sweep, unvisited cells are untouched, and a visited cell is untouched or was unfixed and is now fixed to one of its candidates |
| HiddenSingles.SolveUpToChanged | sudoku.py:124-155 | the `solved` counter equals the number of cells the sweep has changed |
| HiddenSingles.SolveUpToBound | sudoku.py:124-155 | after visiting k cells the counter is at most k |
| HiddenSingles.VisitState | sudoku.py:126-134 | when cell i is visited, the earlier cells already hold their final candidates and the later ones their initial candidates |
| HiddenSingles.VisitSound | sudoku.py:130-154 | a visit that changes its cell fixes the unfixed cell to one of its candidates that no other cell of the row, of the column or of the box can take |
| HiddenSingles.HiddenSingleSound | sudoku.py:130-154 | every cell the sweep changes was unfixed and ends fixed to one of its candidates v; v is a candidate of no other cell of its row, column or box on the board the sweep saw at that cell |
| HiddenSingles.HiddenSingleOrder | sudoku.py:130-154 | each cell's final candidates: fixed cells are kept; otherwise the row is consulted first, then the column, then the box |
| HiddenSingles.SolveCounts | sudoku.py:124-155 | the sweep only removes candidates; its result is the number of cells it changed, at most 81; every changed cell ends fixed |
| Search.Answer | sudoku.py:165 | the verdict on a kept board is Solved exactly when the board is solved, and never NoBranch |
| Search.UnfixedSpec | sudoku.py:167 | the scan lists exactly the unfixed cells, in increasing cell order |
| Search.Insert | sudoku.py:168 | insertion adds exactly the new cell to the multiset of cells |
| Search.SortByCount | sudoku.py:168 | the sort is a permutation of its input |
| Search.InsertOrdered | sudoku.py:168 | inserting into an ordered list keeps it ordered by (candidate count, cell number) |
| Search.SortOrdered | sudoku.py:168 | sorting distinct cells orders them by candidate count, with ties in scan order |
| Search.BranchOrderSpec | sudoku.py:167-168 | the branch order contains exactly the unfixed cells, by non-decreasing candidate count, ties in row-major order |
| Search.BranchSpec | sudoku.py:172-186 | a branch keeps its cell fixed to v, only removes candidates from the original board, and fires exactly when its sweep changed the copy |
| Search.NoBranchExhaustive | sudoku.py:169-188 | when no branch fires, every candidate of every unfixed cell was tried and none fired |
| Search.AdoptedSpec | sudoku.py:169-188 | the adopted branch fixed an unfixed cell to one of its candidates; its board keeps that choice and only removes candidates |
| Search.SearchResultSpec | sudoku.py:157-188 | a search's kept board only lost candidates; Solved is reported exactly for a solved board; after branching, the kept board has some previously unfixed cell fixed to one of its candidates |
| Parsing.Split | sudoku.py:237 | splitting at line feeds gives at least one line |
| Parsing.SplitLines | sudoku.py:237 | no line of the split contains a line feed |
| Parsing.SplitJoin | sudoku.py:237 | joining the split lines with line feeds gives back the text |
| Parsing.JoinSplit | sudoku.py:237 | splitting lines joined with line feeds gives back the lines |
| Parsing.DigitValue | sudoku.py:240-241 | the value of a decimal digit character is within 0..9 |
| Parsing.ParseFails | sudoku.py:234-244 | parsing fails exactly when some line has a digit whose cell number x + 9y is 81 or more |
| Parsing.ParseCells | sudoku.py:234-244 | every cell of a parsed board is {1..9} or a single digit 0..9 |
| Parsing.PlaceLineSpec | sudoku.py:238-243 | a line with no digit past the board writes character x into cell x + 9y: a digit fixes it, anything else leaves it as it was |
| Parsing.OneLine | sudoku.py:234-244 | a puzzle written on one line of at most 81 characters fills the cells in row-major order |
| Parsing.ParseSquare | sudoku.py:234-244 | at most 9 lines of at most 9 characters parse without error: cell (x, y) is {d} when character x of line y is the digit d, and {1..9} otherwise |
| Sudoku.Board.constructor | sudoku.py:56-61 | a new board has its own array of 81 cells, each with candidates {1..9}, at the given depth |
| Sudoku.Board.Copy | sudoku.py:63-64 | a board built from a snapshot holds exactly that snapshot in a fresh array |
| Sudoku.Board.Clone | sudoku.py:63-64 | the clone is a fresh board with a fresh array, the same candidates and the same depth |
| Sudoku.Board.Set | sudoku.py:69-71 | set replaces the candidates of cell x + 9y and of no other cell |
| Sudoku.Board.Discard | sudoku.py:49-52 | discard reports whether v was a candidate; afterwards v is gone from that cell and every other candidate and cell is unchanged |
| Sudoku.Board.Prune | sudoku.py:92-106 | the in-place sweep leaves exactly the board and the counters of `Elimination.Prune` on the old board |
| Sudoku.Board.VisitCell | sudoku.py:95-104 | visiting one cell moves the in-place sweep one step along `Elimination.PruneUpTo` |
| Sudoku.Board.DiscardAround | sudoku.py:97-104 | discarding a fixed value from the 24 neighbours in turn matches `Elimination.DiscardAll`, counters included |
| Sudoku.Board.DiscardCounted | sudoku.py:100-104 | one counted discard matches `Elimination.DiscardOne` |
| Sudoku.Board.PruneAll | sudoku.py:120-122 | repeating sweeps until one removes nothing leaves the settled board `Elimination.Settle` of the old board |
| Sudoku.Board.Solve | sudoku.py:124-155 | the in-place sweep leaves exactly the board and the count of `HiddenSingles.Solve` on the old board |
| Sudoku.Board.CheckCell | sudoku.py:128-154 | the row, column and box checks at one cell move the sweep one step along `HiddenSingles.SolveUpTo` |
| Sudoku.Board.CheckGroup | sudoku.py:130-136 | one group check in place matches `HiddenSingles.Check`, count included |
| Sudoku.Board.Solve2 | sudoku.py:157-188 | settles the board, then ends in a state allowed by `Search.SearchResult` for the settled board; the depth is unchanged |
| Sudoku.Board.Search | sudoku.py:167-188 | on a board that is neither solved nor invalid, ends in a state allowed by `Search.SearchResult` for the board it started from |
| Sudoku.Board.FindBranch | sudoku.py:167-186 | without touching the board, returns the copy of the first branch that fires, in branch order, or reports that none fires |
| Sudoku.Board.TryCell | sudoku.py:171-186 | without touching the board, returns a fresh copy for a firing candidate of the cell, or reports that no candidate of the cell fires |
| Sudoku.Board.TryBranch | sudoku.py:172-186 | the branch runs on a fresh, independent copy one level deeper and yields exactly `Search.Branch`; the original board is not modified; the assertion that the copy's cell now differs from the original's holds |
| Sudoku.Board.Adopt | sudoku.py:187-188 | the board takes over the winning copy's array and reports whether it is solved |
| Sudoku.Parse | sudoku.py:234-244 | parsing fails exactly when `Parsing.ParseGrid` fails; otherwise it yields a fresh depth-0 board holding `Parsing.ParseGrid` of the text |

## Findings

| source | as written | input that shows it | evidently intended | confidence | as-written member | corrected member |
|---|---|---|---|---|---|---|
| sudoku.py:121 | `while self.prune() > 0` compares the pair (modified, solved) with the int 0; Python 3 raises TypeError (the file uses the Python 3 `print(..., end=, flush=)`), so pruneall, and with it solve2, never completes | any board, e.g. the sample at sudoku.py:15-24 | repeat prune until it removes nothing | not executed; high | Elimination.PruneAllRaises | Sudoku.Board.PruneAll |

The rest of the model uses the corrected loop: `Sudoku.Board.PruneAll`,
specified by `Elimination.Settle` with `Elimination.SettleFixpoint` proved
about it.

## Left out

- Printing and formatting are not modelled: `fmtval`, `fmtopt`, `__repr__`,
  `debug` (sudoku.py:38-47, 73-90, 108-118) and the progress prints of
  solve2 (sudoku.py:164, 185). They write to standard output and change no
  board state.
- The sample puzzles and the module-level driver loop (sudoku.py:4-24,
  247-256) are script I/O. The driver loop need not terminate.
- `copy.deepcopy` (sudoku.py:64) is modelled as allocating a fresh array
  holding the same 81 candidate sets; the library is not modelled.
- The `Cell` objects are the slots of the board's array. Their `x` and `y`
  fields are read by `solve`, `solve2` and `debug`. They are always equal to
  i % 9 and i / 9 for slot i, since they are set at construction, and neither
  `set` nor `deepcopy` changes them. So the model keeps them implicit.
- Sudoku.Board.Get: no contract of its own. It reads slot x + 9y, and the
  numbering is stated by `Geometry.IndexCoordinates`.
- Cells.FixedValue: requires a fixed cell. `list(values)[0]` takes the first
  element in Python's set order, and the program calls it only on fixed
  cells (sudoku.py:97-98).
- Sudoku.Board.TryCell: the order in which the candidates of one cell are
  tried follows Python's set iteration order, which is unspecified. The model
  takes an arbitrary untried candidate each time. So `Search.Adopted` says
  nothing about the other candidates of the adopted cell.
- Sudoku.Board.Solve2: returns a three-way verdict (Solved, Unsolved,
  NoBranch) in place of `issolved()` or the `None` that falls out of the
  loop.
- Parsing.IsDigit: only the ASCII digits are modelled. Python's
  `str.isdigit` also accepts other Unicode digits, for which `int(ch)` may
  raise.
- Sudoku.Parse: the `IndexError` raised by `set` for a cell number of 81 or
  more is returned as `None`.
- The `depth` counter is carried (a fresh board has depth 0, a branch has its
  parent's depth plus one) but nothing depends on it.
- Integers are unbounded here as in Python, so the counters need no
  wrap-around.
- No claim is made that solve2 finds a solution. As written, it adopts a
  branch after one hidden-single sweep, whatever the branch leads to.
