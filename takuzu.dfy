/**
 * The search problem: a state wraps a board; actions lists the plays to
 * try from a state (one forced play when the scans find one, otherwise the
 * speculative plays that pass the play check, most restricted first);
 * result applies a play to a copy of the board; goal_test is the solved
 * board check; h counts the free cells.
 */
module TakuzuProblem {
  import opened Grids
  import opened Deduction
  import opened Candidates
  import opened Boards

  /** A search state: the board it holds. */
  class TakuzuState {
    const board: Board

    constructor (b: Board)
      ensures board == b
    {
      board := b;
    }

    /** get_board: a fresh copy of the state's board. */
    method GetBoard() returns (b: Board)
      requires board.Valid()
      ensures fresh(b) && fresh(b.cells) && b.Valid()
      ensures b.dimension == board.dimension && b.Contents() == board.Contents()
    {
      b := board.Copy();
    }

    /** __lt__: this state has fewer free cells than the other. */
    method Less(other: TakuzuState) returns (r: bool)
      requires board.Valid() && other.board.Valid()
      ensures r <==> CountInGrid(board.Contents(), Free) < CountInGrid(other.board.Contents(), Free)
    {
      var mine := board.FreePositions();
      var theirs := other.board.FreePositions();
      FreePositionsSpec(board.Contents());
      FreePositionsSpec(other.board.Contents());
      r := |mine| < |theirs|;
    }
  }

  /** What actions returns for a board: the forced play on its own, or else
      the plays that the trials accept, sorted by the restrictions of their
      cells on the board the trials leave behind. */
  function ActionsOf(g: Grid): seq<Play>
    requires WellFormed(g)
  {
    match ForcedMove(g)
    case Some(p) => [p]
    case None =>
      NoFreeCellAfterTrials(g);
      var run := Trials(g, Attempts(FreePositions(g)));
      SortByRestrictions(run.kept, run.grid)
  }

  /** The number of neighbours a cell has on an n×n board. */
  function Neighbours(n: nat, q: Play): nat {
    InGridNeighbours(n, q.row, q.col)
  }

  /** The search problem, holding its initial state. */
  class Takuzu {
    const initial: TakuzuState
    const state: TakuzuState

    /** Both the initial state and the recorded state wrap the given board. */
    constructor (b: Board)
      ensures fresh(initial) && fresh(state) && initial != state
      ensures initial.board == b && state.board == b
    {
      initial := new TakuzuState(b);
      state := new TakuzuState(b);
    }

    /**
     * actions: on a copy of the state's board, compare every pair of rows,
     * then every pair of columns, then look at every cell, returning the
     * first forced play found; failing that, try 0 and 1 at every free
     * cell with is_valid_play (which leaves each trial on the copy) and
     * sort the accepted plays by their restrictions, largest first.
     */
    method Actions(s: TakuzuState) returns (acts: seq<Play>)
      requires s.board.Valid()
      ensures acts == ActionsOf(s.board.Contents())
    {
      var board := s.GetBoard();
      var forced := ScanRowPairs(board);
      if forced.None? {
        forced := ScanColumnPairs(board);
      }
      if forced.None? {
        forced := ScanCells(board);
      }
      if forced.Some? {
        return [forced.value];
      }
      acts := TryFreePositions(board);
      acts := SortByRestrictions(acts, board.Contents());
    }

    /** result: a new state whose board is a copy of the state's board with
        the action's number written in its cell. */
    method Result(s: TakuzuState, action: Play) returns (next: TakuzuState)
      requires s.board.Valid()
      requires action.row < s.board.dimension && action.col < s.board.dimension
      requires 0 <= action.number <= 2
      ensures fresh(next) && fresh(next.board) && fresh(next.board.cells) && next.board.Valid()
      ensures next.board.Contents() == Place(s.board.Contents(), action.row, action.col, action.number)
      ensures s.board.Contents() == old(s.board.Contents())
    {
      var board := s.GetBoard();
      board.PlaceNumber(action.row, action.col, action.number);
      next := new TakuzuState(board);
    }

    /** goal_test: the state's board is solved. */
    method GoalTest(s: TakuzuState) returns (solved: bool)
      requires s.board.Valid()
      ensures solved <==> CheckResolvedBoard(s.board.Contents())
    {
      solved := CheckResolvedBoard(s.board.Contents());
    }

    /** h: the number of free cells of the state's board. */
    method H(s: TakuzuState) returns (estimate: nat)
      requires s.board.Valid()
      ensures estimate == CountInGrid(s.board.Contents(), Free)
      ensures estimate == 0 <==> IsFull(s.board.Contents())
    {
      var frees := s.board.FreePositions();
      FreePositionsSpec(s.board.Contents());
      estimate := |frees|;
    }
  }

  // ---------------------------------------------------------------------
  // The phases of actions
  // ---------------------------------------------------------------------

  /** The row comparisons of actions: for each pair of rows (i, j) that
      differ in one cell only, a free cell there in row j gets the opposite
      of row i's value, else a free cell there in row i gets the opposite of
      row j's value. */
  method ScanRowPairs(board: Board) returns (m: Option<Play>)
    requires board.Valid()
    ensures m == RowPairMove(board.Contents())
  {
    ghost var g := board.Contents();
    for i := 0 to board.dimension
      invariant RowPairMove(g) == PairScan(g, i, 0, true)
    {
      m := ScanRowPartners(board, i);
      if m.Some? {
        return m;
      }
    }
    return None;
  }

  /** Row i compared with every row in turn: the first fill found, or None
      when the scan goes on with the next row. */
  method ScanRowPartners(board: Board, i: nat) returns (m: Option<Play>)
    requires board.Valid() && i < board.dimension
    ensures var g := board.Contents();
            if m.Some? then m == PairScan(g, i, 0, true)
            else PairScan(g, i, 0, true) == PairScan(g, i + 1, 0, true)
  {
    ghost var g := board.Contents();
    var row := board.GetRow(i);
    for j := 0 to board.dimension
      invariant PairScan(g, i, 0, true) == PairScan(g, i, j, true)
    {
      var rowComp := board.GetRow(j);
      match ComparePair(row, rowComp)
      case Some(FillOther(pos, x)) => return Some(Play(j, pos, x));
      case Some(FillThis(pos, x)) => return Some(Play(i, pos, x));
      case None =>
    }
    return None;
  }

  /** The column comparisons of actions, the same with columns: the play
      goes to the differing row of column j, else of column i. */
  method ScanColumnPairs(board: Board) returns (m: Option<Play>)
    requires board.Valid()
    ensures m == ColPairMove(board.Contents())
  {
    ghost var g := board.Contents();
    ghost var t := Transpose(g);
    TransposeWellFormed(g);
    assert ColPairMove(g) == PairScan(t, 0, 0, false);
    for i := 0 to board.dimension
      invariant PairScan(t, 0, 0, false) == PairScan(t, i, 0, false)
    {
      m := ScanColumnPartners(board, i, t);
      if m.Some? {
        return m;
      }
    }
    return None;
  }

  /** Column i compared with every column in turn. */
  method ScanColumnPartners(board: Board, i: nat, ghost t: Grid) returns (m: Option<Play>)
    requires board.Valid() && i < board.dimension
    requires t == Transpose(board.Contents()) && WellFormed(t)
    ensures if m.Some? then m == PairScan(t, i, 0, false)
            else PairScan(t, i, 0, false) == PairScan(t, i + 1, 0, false)
  {
    var col := board.GetCol(i);
    for j := 0 to board.dimension
      invariant PairScan(t, i, 0, false) == PairScan(t, i, j, false)
    {
      var colComp := board.GetCol(j);
      match ComparePair(col, colComp)
      case Some(FillOther(pos, x)) => return Some(Play(pos, j, x));
      case Some(FillThis(pos, x)) => return Some(Play(pos, i, x));
      case None =>
    }
    return None;
  }

  /** The cell-by-cell look of actions, row by row. */
  method ScanCells(board: Board) returns (m: Option<Play>)
    requires board.Valid()
    ensures m == CellScan(board.Contents(), 0, 0)
  {
    ghost var g := board.Contents();
    var n := board.dimension;
    for i := 0 to n
      invariant CellScan(g, 0, 0) == CellScan(g, i, 0)
    {
      for j := 0 to n
        invariant CellScan(g, 0, 0) == CellScan(g, i, j)
      {
        var move := CellMove(board.Contents(), i, j);
        if move.Some? {
          return move;
        }
      }
    }
    return None;
  }

  /** The trials of actions: 0 and then 1 at every free cell, each passed
      to is_valid_play, which leaves it on the board; the accepted plays in
      the order tried. */
  method TryFreePositions(board: Board) returns (accepted: seq<Play>)
    requires board.Valid()
    modifies board.cells
    ensures board.Valid() && OnGrid(board.dimension, Attempts(FreePositions(old(board.Contents()))))
    ensures TrialRun(board.Contents(), accepted) == Trials(old(board.Contents()), Attempts(FreePositions(old(board.Contents()))))
  {
    ghost var g := board.Contents();
    var frees := board.FreePositions();
    ghost var all := Attempts(frees);
    FreeAttemptsOnGrid(g);
    accepted := [];
    for k := 0 to |frees|
      invariant board.Valid() && board.dimension == |g|
      invariant TrialRun(board.Contents(), accepted) == TrialsUpTo(g, all, 2 * k)
    {
      var (row, col) := frees[k];
      AttemptsAt(frees, k, 0);
      AttemptsAt(frees, k, 1);
      accepted := TryPosition(board, row, col, accepted, g, all, 2 * k);
    }
    assert all[..|all|] == all;
  }

  /** The inner loop of the trials: 0 and then 1 at one free cell, plays
      number m and m + 1 of the sequence tried. */
  method TryPosition(board: Board, row: nat, col: nat, accepted: seq<Play>, ghost g: Grid, ghost plays: seq<Play>, ghost m: nat)
    returns (kept: seq<Play>)
    requires board.Valid() && WellFormed(g) && board.dimension == |g|
    requires OnGrid(|g|, plays) && m + 1 < |plays|
    requires plays[m] == Play(row, col, 0) && plays[m + 1] == Play(row, col, 1)
    requires TrialRun(board.Contents(), accepted) == TrialsUpTo(g, plays, m)
    modifies board.cells
    ensures board.Valid()
    ensures TrialRun(board.Contents(), kept) == TrialsUpTo(g, plays, m + 2)
  {
    kept := accepted;
    for number := 0 to 2
      invariant board.Valid()
      invariant TrialRun(board.Contents(), kept) == TrialsUpTo(g, plays, m + number)
    {
      var action := Play(row, col, number);
      kept := TryPlay(board, action, kept, g, plays, m + number);
    }
  }

  /** One trial of actions: play number m of the sequence tried goes to
      is_valid_play, and is appended to the accepted plays when it passes. */
  method TryPlay(board: Board, action: Play, accepted: seq<Play>, ghost g: Grid, ghost plays: seq<Play>, ghost m: nat)
    returns (kept: seq<Play>)
    requires board.Valid() && WellFormed(g) && board.dimension == |g|
    requires OnGrid(|g|, plays) && m < |plays| && plays[m] == action
    requires TrialRun(board.Contents(), accepted) == TrialsUpTo(g, plays, m)
    modifies board.cells
    ensures board.Valid()
    ensures TrialRun(board.Contents(), kept) == TrialsUpTo(g, plays, m + 1)
  {
    TrialsUpToStep(g, plays, m);
    var ok := board.IsValidPlay(action);
    kept := if ok then accepted + [action] else accepted;
  }

  // ---------------------------------------------------------------------
  // What actions promises
  // ---------------------------------------------------------------------

  /** Without a forced play, the plays offered are the speculative ones. */
  lemma TrialActions(g: Grid)
    requires WellFormed(g) && ForcedMove(g) == None
    ensures OnGrid(|g|, Attempts(FreePositions(g)))
    ensures var run := Trials(g, Attempts(FreePositions(g)));
            ActionsOf(g) == SortByRestrictions(run.kept, run.grid)
  {
    NoFreeCellAfterTrials(g);
  }

  /** The plays tried, in row-major order of their cells. */
  lemma AttemptsOrdered(g: Grid)
    requires WellFormed(g)
    ensures OnGrid(|g|, Attempts(FreePositions(g)))
    ensures StrictlyOrdered(Attempts(FreePositions(g)))
    ensures forall q :: q in Attempts(FreePositions(g)) <==>
              q.row < |g| && q.col < |g| && g[q.row][q.col] == Free && (q.number == 0 || q.number == 1)
  {
    NoFreeCellAfterTrials(g);
    FreePositionsSpec(g);
    AttemptsSpec(FreePositions(g));
  }

  /** Without a forced play, a play is offered exactly when it is one of
      the trials and the play check accepted it where it was tried. */
  lemma TrialActionsAreAccepted(g: Grid)
    requires WellFormed(g) && ForcedMove(g) == None
    ensures OnGrid(|g|, Attempts(FreePositions(g)))
    ensures var plays := Attempts(FreePositions(g));
            forall a | 0 <= a < |plays| :: plays[a] in ActionsOf(g) <==> Accepted(g, plays, a)
    ensures forall q | q in ActionsOf(g) :: q in Attempts(FreePositions(g))
  {
    AttemptsOrdered(g);
    TrialActions(g);
    var plays := Attempts(FreePositions(g));
    var run := Trials(g, plays);
    TrialsKeepAccepted(g, plays);
    SortIsPermutation(run.kept, run.grid);
    assert forall q :: q in ActionsOf(g) <==> q in run.kept by {
      assert forall q :: q in ActionsOf(g) <==> q in multiset(ActionsOf(g));
      assert forall q :: q in run.kept <==> q in multiset(run.kept);
    }
  }

  /** Every play offered writes 0 or 1 into a free cell of the board. */
  lemma ActionsTargetFreeCells(g: Grid)
    requires WellFormed(g)
    ensures forall q | q in ActionsOf(g) ::
              q.row < |g| && q.col < |g| && g[q.row][q.col] == Free && (q.number == 0 || q.number == 1)
  {
    if ForcedMove(g).Some? {
      ForcedMoveForm(g);
    } else {
      TrialActionsAreAccepted(g);
      AttemptsOrdered(g);
    }
  }

  /** Without a forced play, the order of the plays only depends on where
      their cells are: every trial stays on the board, so no cell is free
      when the sort looks at restrictions, and restrictions then counts the
      cell's neighbours. Cells inside come first, then edges, then corners,
      each group in row-major order with 0 before 1. */
  lemma TrialActionsOrder(g: Grid)
    requires WellFormed(g) && ForcedMove(g) == None
    ensures var acts := ActionsOf(g);
            forall a, b | 0 <= a < b < |acts| ::
              Neighbours(|g|, acts[a]) >= Neighbours(|g|, acts[b]) &&
              (Neighbours(|g|, acts[a]) == Neighbours(|g|, acts[b]) ==> PlayBefore(acts[a], acts[b]))
  {
    AttemptsOrdered(g);
    TrialActions(g);
    TrialActionsAreAccepted(g);
    ActionsTargetFreeCells(g);
    var plays := Attempts(FreePositions(g));
    var run := Trials(g, plays);
    var acts := ActionsOf(g);
    TrialsKeepAccepted(g, plays);
    SortIsSorted(run.kept, run.grid);
    SortTiesInOrder(run.kept, run.grid);
    forall a | 0 <= a < |acts| ensures KeyOf(run.grid, acts[a]) == Neighbours(|g|, acts[a]) {
      assert acts[a] in acts;
      KeyAfterTrials(g, acts[a]);
    }
  }

  /** After the trials, the key of a play on the board is the number of
      neighbours of its cell. */
  lemma KeyAfterTrials(g: Grid, q: Play)
    requires WellFormed(g) && q.row < |g| && q.col < |g|
    ensures OnGrid(|g|, Attempts(FreePositions(g)))
    ensures KeyOf(Trials(g, Attempts(FreePositions(g))).grid, q) == Neighbours(|g|, q)
  {
    NoFreeCellAfterTrials(g);
    var h := Trials(g, Attempts(FreePositions(g))).grid;
    RestrictionsWithoutFreeCells(h, q.row, q.col);
  }

  /** A board without free cells offers no play at all. */
  lemma FullBoardHasNoActions(g: Grid)
    requires WellFormed(g) && IsFull(g)
    ensures ActionsOf(g) == []
  {
    FullBoardHasNoForcedMove(g);
    FreePositionsSpec(g);
    ByKeyFromEmpty(KeyFn(g), 4);
  }

  /** A solved board is a dead end for the search: h is 0 there and no play
      is offered. */
  lemma GoalIsTerminal(g: Grid)
    requires WellFormed(g) && CheckResolvedBoard(g)
    ensures CountInGrid(g, Free) == 0 && ActionsOf(g) == []
  {
    FullBoardHasNoActions(g);
  }
}
