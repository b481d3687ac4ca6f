# Takuzu board engine in Dafny

This is a model of the board engine of a Takuzu (Binairo) solver. Takuzu is played on an
N×N board. Each cell holds 0, 1 or 2, where 2 marks a free cell. A solved board is:
- full;
- balanced: every row and every column has as many 0s as 1s for even N, and one more of
  either for odd N;
- free of runs: no three equal cells in a row or column;
- unique: all rows differ from each other, and so do all columns.

The solver hands a `Takuzu` problem to a generic tree search. That search asks the
problem for the `actions` of a state, applies one of them with `result`, and stops on
`goal_test`. `h` is the heuristic for A*.

The model is split into modules:

- `Grids`: the value view of a board. It covers:
  - neighbour lookups (`None` at the edges), counts of a value in a row or column, and
    free positions;
  - the rules that `check_resolved_board` combines, each proved equivalent to a
    statement about the cells;
  - the degree count `restrictions`;
  - the speculative check `is_valid_play`, as the predicate `PlayAcceptable`.
- `Boards`: the `Board` class over an `array2<int>`. It has the copy, get, place, row
  and column operations. `free_positions` is a loop proved against `Grids.FreePositions`,
  and `__str__` a loop proved against `BoardText.Text`. `IsValidPlay` writes the play into the board and leaves it there,
  whatever the verdict, just as the source does.
- `BoardText`: the text form produced by `__str__`, with a reader that recovers the
  board from it.
- `Deduction`: the forced moves that `actions` looks for, in the source's order:
  1. two rows that differ in exactly one cell;
  2. then two columns that do;
  3. then a cell-by-cell scan: a known cell whose free neighbour would complete three
     equal cells, or a free cell whose value `infer_number` deduces.

  Every cell-scan move is proved forced: any solved board that agrees with the known
  cells holds that value there.
- `Candidates`: what `actions` does when nothing is forced.
  - It tries 0 and then 1 at every free position through `is_valid_play`.
  - Every trial placement stays on the one board copy.
  - The accepted plays are then sorted by `restrictions`, measured on that board, from
    most to least restricted, with a stable sort.
- `TakuzuProblem`: the `TakuzuState` and `Takuzu` classes.
  - `Actions` is proved to return `ActionsOf`, the value-level description of the
    above.
  - `Result`, `GoalTest` and `H` are proved against the grid functions.

## Behaviour of the code worth knowing

- **Uniqueness on partial boards.** `is_valid_play` applies the uniqueness rule to
  partial boards as well (src/takuzu.py:199). Rows that still hold free cells are
  compared like any others. So on an empty board of side 3 or more, every single play
  is rejected (`Grids.EmptyBoardRejectsEveryPlay`).
- **The row-pair move is not forced in general.** The cell-scan moves are sound, but
  the row-pair move is not. Two rows may differ in one known cell while they share
  other free cells, which can still come to differ. `Deduction.PairMoveNotForced` gives
  a 3×3 board whose first move from `actions` writes 0 where a solved board that
  agrees with every known cell has 1. The model states what the rule does, the `Twin`
  form of `Deduction.ForcedMoveForm`, and does not claim it is sound.

## Model

| member | source | states |
|---|---|---|
| Grids.Place | src/takuzu.py:64-66 | the placed cell holds the number, every other cell is unchanged |
| Grids.PlaceKeepsWellFormed | src/takuzu.py:64-66 | placing 0, 1 or 2 keeps a board square with cells in 0..2 |
| Grids.Col | src/takuzu.py:101-102 | column j has one entry per row, entry i being cell (i, j) |
| Grids.Transpose | src/takuzu.py:118-119 | the transposed board is square and its rows are the columns of the board |
| Grids.CountIsMultiplicity | src/takuzu.py:82-85 | the count of a value in a row or column is its multiplicity there |
| Grids.CountsCoverCells | src/takuzu.py:82-85 | in a vector of cells the counts of 0, 1 and 2 add up to its length |
| Grids.CountInGridZero | src/takuzu.py:124-126 | no occurrence of a value in the board exactly when no cell holds it |
| Grids.NeighbourLookups | src/takuzu.py:68-80 | (below, above) and (left, right): each is None exactly when off the board, and otherwise the value of that cell |
| Grids.VerticalIsTransposedHorizontal | src/takuzu.py:68-80 | the vertical neighbours are the horizontal neighbours in the transposed board, swapped |
| Grids.DistinctCountExact | src/takuzu.py:116-119 | the number of distinct vectors equals their number exactly when no two of them are equal |
| Grids.EqualityRuleIff | src/takuzu.py:128-153 | equality_rule holds exactly when every row and every column is balanced for the parity of N |
| Grids.AdjacencyRuleIff | src/takuzu.py:155-167 | adjacency_rule holds exactly when no three equal consecutive cells appear in any row or column |
| Grids.CheckResolvedBoardIff | src/takuzu.py:121-170 | the board is solved exactly when it is full, balanced, has no run of three, and its rows as well as its columns are pairwise distinct |
| Grids.FreePositionsSpec | src/takuzu.py:87-96 | free_positions lists exactly the cells holding 2, in strictly row-major order, as many as there are free cells |
| Grids.StrictlyRowMajorDistinct | src/takuzu.py:87-96 | no position is listed twice |
| Grids.NoFreePositionsIffFull | src/takuzu.py:87-96 | there are no free positions exactly when no cell is free |
| Grids.Restrictions | src/takuzu.py:201-203 | the degree count of a cell lies between 0 and 4 |
| Grids.RestrictionsWithoutFreeCells | src/takuzu.py:201-203 | on a board without free cells the degree count is the number of in-grid neighbours of the cell (2, 3 or 4 when N ≥ 2) |
| Grids.PlayAcceptableIff | src/takuzu.py:172-199 | the play check rejects exactly when a row or column count of 0s or 1s is over N/2 (even N) or N//2+1 (odd N), both vertical or both horizontal neighbours equal the number, or two rows or two columns are equal |
| Grids.BalancedWithinLimit | src/takuzu.py:183-191 | a balanced full vector never exceeds the count limit of the play check |
| Grids.FilledLineWithinLimit | src/takuzu.py:183-191 | a balanced vector without free cells passes both count limits |
| Grids.NoRunThrough | src/takuzu.py:194-196 | on a board without runs of three, a cell's two vertical (or two horizontal) neighbours are never both equal to it |
| Grids.ResolvedBoardPassesPlayCheck | src/takuzu.py:172-199 | the play check accepts any play whose result is a solved board |
| Grids.EmptyBoardRejectsEveryPlay | src/takuzu.py:198-199 | on an empty board of side 3 or more every single play of 0 or 1 is rejected, because two untouched rows are equal |
| Boards.Board.constructor | src/takuzu.py:37-39 | a fresh board holding the given rows, of dimension their number |
| Boards.Board.Copy | src/takuzu.py:56-58 | a fresh board, sharing no array with the original, with equal dimension and cells |
| Boards.Board.GetNumber | src/takuzu.py:60-62 | the value of the cell, one of 0, 1, 2 |
| Boards.Board.GetRow | src/takuzu.py:98-99 | row i of the board |
| Boards.Board.GetCol | src/takuzu.py:101-102 | column j of the board, equal to row j of the transposed board |
| Boards.Board.PlaceNumber | src/takuzu.py:64-66 | the new cells are the old ones with the single cell overwritten |
| Boards.Board.FreePositions | src/takuzu.py:87-96 | the loop returns the free positions of the current cells (see Grids.FreePositionsSpec) |
| Boards.Board.ToString | src/takuzu.py:41-54 | the loop builds the text of the board (see BoardText.TextRoundTrip) |
| Boards.Board.RowString | src/takuzu.py:45-49 | the inner loop builds the text of one row |
| Boards.Board.IsValidPlay | src/takuzu.py:172-199 | the play stays on the board whatever the verdict, nothing else changes, and the verdict is the play check on the new board |
| BoardText.TextRoundTrip | src/takuzu.py:41-54 | for a board of side 1 or more, splitting the text at newlines and tabs and reading each field as a number gives the board back |
| BoardText.TextLength | src/takuzu.py:41-54 | the text has one digit per cell and one separator between consecutive cells, 2N·N - 1 characters in all |
| Deduction.DifferencesSpec | src/takuzu.py:243-245 | the differing positions are exactly those where the two vectors differ, in ascending order |
| Deduction.SingleDifference | src/takuzu.py:244-245 | exactly one difference is found precisely when the vectors differ at one position only |
| Deduction.ComparePairSpec | src/takuzu.py:243-253 | a fill is found exactly when the vectors differ in one cell only and that cell is free in one of them; the free cell gets 1 minus the other's value there |
| Deduction.PairMoveForm | src/takuzu.py:238-253 | a pair move fills a free cell so that its vector does not become a copy of the other |
| Deduction.PairScanForm | src/takuzu.py:238-269 | every move of the row or column scan fills a free cell with the opposite of the value that would make its vector a copy of another one |
| Deduction.PairScanFull | src/takuzu.py:238-269 | on a board without free cells the pair scans find nothing |
| Deduction.InferNumber | src/takuzu.py:218-233 | the deduced number, when there is one, is 0 or 1 |
| Deduction.CellMove | src/takuzu.py:271-296 | a cell-scan move writes 0 or 1 into a free cell of the board |
| Deduction.CellMoveJustified | src/takuzu.py:271-296 | a move made next to a known cell would otherwise extend a pair into three; a move infer_number makes fills its own cell, which would otherwise sit between two equal cells or overfill its row or column |
| Deduction.CellScanJustified | src/takuzu.py:271-296 | the first move of the row-major cell scan fills a free cell with 0 or 1 for one of those reasons |
| Deduction.CellScanFull | src/takuzu.py:271-296 | on a board without free cells the cell scan finds nothing |
| Deduction.SaturationForbidden | src/takuzu.py:226-231 | once a vector holds half the board's width of x, a balanced completion has no further x |
| Deduction.SolvedNeverExtendsRun | src/takuzu.py:271-291 | a solved completion never holds x at a cell next to a pair of x or between two x |
| Deduction.JustifiedMoveIsForced | src/takuzu.py:218-296 | a move with one of those reasons holds in every solved board that agrees with the known cells |
| Deduction.CellScanSound | src/takuzu.py:271-296 | every cell-scan move is forced: every solved completion holds that number there |
| Deduction.ForcedMoveForm | src/takuzu.py:238-296 | any forced move fills a free cell with 0 or 1, by the row rule, the column rule, or a cell-scan reason |
| Deduction.FullBoardHasNoForcedMove | src/takuzu.py:238-296 | a board without free cells has no forced move |
| Deduction.PairScanNoneIff | src/takuzu.py:238-269 | the row (or column) scan from a pair on finds nothing exactly when no later pair, in loop order, yields a move |
| Deduction.CellScanNoneIff | src/takuzu.py:271-296 | the cell scan from a cell on finds nothing exactly when no later cell, in row-major order, yields a move |
| Deduction.ForcedMoveNoneIff | src/takuzu.py:238-303 | actions finds no forced move, and so goes on to the trials, exactly when no pair of rows, no pair of columns and no cell yields a move |
| Deduction.PairMoveNotForced | src/takuzu.py:238-253 | a 3×3 board whose first forced move (from the row comparison) writes 0 where a solved board agreeing with every known cell holds 1 |
| Candidates.AttemptsSpec | src/takuzu.py:299-301 | the plays tried are exactly 0 and 1 at each free position, in order when the positions are |
| Candidates.TrialsKeepAccepted | src/takuzu.py:299-303 | a tried play is kept exactly when the check accepts it on the board left by the plays before it; the kept plays keep their order |
| Candidates.TrialsGrid | src/takuzu.py:299-303 | after the trials every tried cell holds 1 and every other cell is unchanged |
| Candidates.NoFreeCellAfterTrials | src/takuzu.py:299-303 | after the trials no cell of the board is free |
| Candidates.KeyOf | src/takuzu.py:306 | the sort key is a degree count, at most 4 |
| Candidates.SortIsPermutation | src/takuzu.py:305-307 | sorting by restrictions is a permutation of the plays |
| Candidates.SortIsSorted | src/takuzu.py:305-307 | the sorted plays come with non-increasing restrictions |
| Candidates.SortIsStable | src/takuzu.py:305-307 | the plays of each key keep their relative order |
| Candidates.SortTiesInOrder | src/takuzu.py:305-307 | plays tried in row-major order stay in row-major order, 0 before 1, among equal keys |
| TakuzuProblem.TakuzuState.constructor | src/takuzu.py:20-23 | the state holds the given board |
| TakuzuProblem.TakuzuState.GetBoard | src/takuzu.py:28-29 | a fresh copy of the state's board, equal in dimension and cells |
| TakuzuProblem.TakuzuState.Less | src/takuzu.py:25-26 | this state is less exactly when it has fewer free cells than the other |
| TakuzuProblem.Takuzu.constructor | src/takuzu.py:210-213 | two distinct fresh states, the initial one and the recorded one, both holding the given board |
| TakuzuProblem.Takuzu.Actions | src/takuzu.py:215-309 | the method returns ActionsOf the state's board: the forced move alone if there is one, otherwise the accepted trials sorted by restrictions on the board the trials leave (TrialActions states that branch); it modifies nothing, so the state's board is untouched |
| TakuzuProblem.Takuzu.Result | src/takuzu.py:311-317 | a fresh state whose fresh board equals the state's board with the action's cell overwritten; the state's own board is unchanged |
| TakuzuProblem.Takuzu.GoalTest | src/takuzu.py:319-321 | true exactly when the state's board is solved |
| TakuzuProblem.Takuzu.H | src/takuzu.py:323-325 | the number of free cells, 0 exactly when the board is full |
| TakuzuProblem.ScanRowPairs | src/takuzu.py:238-253 | the nested loop returns the first row-pair move |
| TakuzuProblem.ScanRowPartners | src/takuzu.py:240-253 | row i against every row: the first fill found, or the scan moves on to row i + 1 |
| TakuzuProblem.ScanColumnPairs | src/takuzu.py:255-269 | the nested loop returns the first column-pair move |
| TakuzuProblem.ScanColumnPartners | src/takuzu.py:256-269 | column i against every column: the first fill found, or the scan moves on to column i + 1 |
| TakuzuProblem.ScanCells | src/takuzu.py:271-296 | the nested loop returns the first cell-scan move in row-major order |
| TakuzuProblem.TryFreePositions | src/takuzu.py:299-303 | the loop keeps the accepted plays and leaves the board of the trials fold |
| TakuzuProblem.TryPosition | src/takuzu.py:300-303 | 0 and then 1 at one free cell advance the trials by two plays |
| TakuzuProblem.TryPlay | src/takuzu.py:301-303 | one play goes through the play check, stays on the board, and is kept when accepted |
| TakuzuProblem.AttemptsOrdered | src/takuzu.py:299-301 | the plays tried are exactly 0 and 1 at each free cell, in strictly row-major order |
| TakuzuProblem.TrialActionsAreAccepted | src/takuzu.py:299-307 | without a forced move, a tried play is offered exactly when the play check accepted it where it was tried |
| TakuzuProblem.ActionsTargetFreeCells | src/takuzu.py:215-309 | every action writes 0 or 1 into a free cell of the state's board |
| TakuzuProblem.KeyAfterTrials | src/takuzu.py:299-307 | after the trials, the restrictions of a cell are its number of neighbours on the board |
| TakuzuProblem.TrialActionsOrder | src/takuzu.py:299-307 | without a forced move, actions come by non-increasing number of neighbours (inside, then edges, then corners), ties in row-major order with 0 before 1 |
| TakuzuProblem.FullBoardHasNoActions | src/takuzu.py:215-309 | a board without free cells offers no action |
| TakuzuProblem.GoalIsTerminal | src/takuzu.py:319-325 | a solved board has h equal to 0 and no action |

## Left out

- `parse_instance_from_stdin` (src/takuzu.py:104-114) and the `__main__` driver read
  stdin and print. They are input and output. `BoardText.ParseRows` is not a model of
  that reader: it only reads back the text `__str__` writes.
- The `search` module (`Problem`, `Node` and the search algorithms) is not part of this
  model. `Takuzu.H` takes the state instead of the node that wraps it.
- The class-wide `state_id` counter of `TakuzuState` (src/takuzu.py:18-23) is left out.
  It is global mutable state used for no decision.
- NumPy is not modelled. `np.count_nonzero`, `np.unique` and `np.where` are restated as
  `Count`, `DistinctCount` and `Differences` over sequences.
- The float comparisons at src/takuzu.py:184 and 226-230 are stated in exact integers:
  - `count > N/2` as `2 * count > N`;
  - `count >= N/2` as `2 * count >= N`.
- `Boards.Board.GetNumber`, `Boards.Board.PlaceNumber`, `Boards.Board.IsValidPlay` and
  `TakuzuProblem.Takuzu.Result` take natural-number indices below the dimension.
  NumPy's wrap-around of negative indices and its error on indices past the edge are
  not modelled. Every call in the source is in range.
- `Boards.Board.Valid` requires every cell to hold 0, 1 or 2. The source array accepts
  any integer, but only reads these values.
- `Candidates.KeyOf` gives 0 to a play off the board, where the source would raise.
  No play that is sorted is ever off the board.
- `Candidates.SortByRestrictions` models Python's stable `sort(reverse=True)` as plays
  grouped by key from 4 down to 0. It is shown to be a permutation, ordered by key,
  and stable. It is not compared with any other sorting algorithm.
- The unsound row and column pair moves are modelled as written. They are not
  corrected, since `actions` relies on them as they are.
