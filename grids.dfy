/**
 * The value view of a Takuzu board: an N×N grid whose cells hold 0, 1 or 2
 * (2 marks a free cell), the read-only queries the board answers, and the
 * rules that a resolved board satisfies.
 */
module Grids {

  datatype Option<T> = None | Some(value: T)

  /** A placement: write `number` into cell (`row`, `col`). */
  datatype Play = Play(row: nat, col: nat, number: int)

  type Grid = seq<seq<int>>

  /** The value of a cell that has not been filled yet. */
  const Free: int := 2

  predicate IsSquare(g: Grid) {
    forall i | 0 <= i < |g| :: |g[i]| == |g|
  }

  /** Every cell of a row or column is 0, 1 or free. */
  predicate CellValues(v: seq<int>) {
    forall k | 0 <= k < |v| :: 0 <= v[k] <= 2
  }

  /** The board invariant: square, every cell 0, 1 or free. */
  predicate WellFormed(g: Grid) {
    IsSquare(g) && forall i, j | 0 <= i < |g| && 0 <= j < |g| :: 0 <= g[i][j] <= 2
  }

  /** The cell at (i, j) when that coordinate lies on the grid. */
  function At(g: Grid, i: int, j: int): Option<int>
    requires IsSquare(g)
  {
    if 0 <= i < |g| && 0 <= j < |g| then Some(g[i][j]) else None
  }

  /** The grid with cell (row, col) overwritten (place_number). */
  function Place(g: Grid, row: nat, col: nat, number: int): (h: Grid)
    requires IsSquare(g) && row < |g| && col < |g|
    ensures IsSquare(h) && |h| == |g|
    ensures forall i, j | 0 <= i < |g| && 0 <= j < |g| ::
              h[i][j] == if i == row && j == col then number else g[i][j]
  {
    g[row := g[row][col := number]]
  }

  lemma PlaceKeepsWellFormed(g: Grid, row: nat, col: nat, number: int)
    requires WellFormed(g) && row < |g| && col < |g| && 0 <= number <= 2
    ensures WellFormed(Place(g, row, col, number))
  {
  }

  // ---------------------------------------------------------------------
  // Rows, columns and counts
  // ---------------------------------------------------------------------

  /** Column j read top to bottom (get_col). */
  function Col(g: Grid, j: nat): (c: seq<int>)
    requires IsSquare(g) && j < |g|
    ensures |c| == |g| && forall i | 0 <= i < |g| :: c[i] == g[i][j]
  {
    seq(|g|, i requires 0 <= i < |g| => g[i][j])
  }

  /** The grid whose rows are the columns of g. */
  function Transpose(g: Grid): (t: Grid)
    requires IsSquare(g)
    ensures IsSquare(t) && |t| == |g|
    ensures forall j | 0 <= j < |g| :: t[j] == Col(g, j)
  {
    seq(|g|, j requires 0 <= j < |g| => Col(g, j))
  }

  /** Number of occurrences of `el` in a row or column (vector_count). */
  function Count(v: seq<int>, el: int): (k: nat)
    ensures k <= |v|
  {
    if v == [] then 0
    else Count(v[..|v| - 1], el) + (if v[|v| - 1] == el then 1 else 0)
  }

  /** `Count` is the multiplicity of `el` in the vector. */
  lemma {:induction false} CountIsMultiplicity(v: seq<int>, el: int)
    ensures Count(v, el) == multiset(v)[el]
  {
    if v != [] {
      CountIsMultiplicity(v[..|v| - 1], el);
      assert v == v[..|v| - 1] + [v[|v| - 1]];
    }
  }

  /** The counts of 0, 1 and 2 in a vector of cells add up to its length. */
  lemma {:induction false} CountsCoverCells(v: seq<int>)
    requires forall k | 0 <= k < |v| :: 0 <= v[k] <= 2
    ensures Count(v, 0) + Count(v, 1) + Count(v, Free) == |v|
  {
    if v != [] {
      CountsCoverCells(v[..|v| - 1]);
    }
  }

  /** Total number of occurrences of `el` in the grid. */
  function CountInGrid(g: Grid, el: int): nat
  {
    if g == [] then 0 else CountInGrid(g[..|g| - 1], el) + Count(g[|g| - 1], el)
  }

  lemma {:induction false} CountZero(v: seq<int>, el: int)
    ensures Count(v, el) == 0 <==> forall k | 0 <= k < |v| :: v[k] != el
  {
    CountIsMultiplicity(v, el);
    assert multiset(v)[el] == 0 <==> el !in v;
  }

  lemma {:induction false} CountInGridZero(g: Grid, el: int)
    ensures CountInGrid(g, el) == 0 <==>
              forall i, j | 0 <= i < |g| && 0 <= j < |g[i]| :: g[i][j] != el
  {
    if g != [] {
      var pre := g[..|g| - 1];
      CountInGridZero(pre, el);
      CountZero(g[|g| - 1], el);
      if CountInGrid(g, el) == 0 {
        forall i, j | 0 <= i < |g| && 0 <= j < |g[i]| ensures g[i][j] != el {
          if i < |g| - 1 { assert g[i] == pre[i]; }
        }
      }
      if forall i, j | 0 <= i < |g| && 0 <= j < |g[i]| :: g[i][j] != el {
        forall i, j | 0 <= i < |pre| && 0 <= j < |pre[i]| ensures pre[i][j] != el {
          assert pre[i] == g[i];
        }
      }
    }
  }

  // ---------------------------------------------------------------------
  // Neighbours
  // ---------------------------------------------------------------------

  /** (below, above) of (row, col), each None at the grid's edge
      (adjacent_vertical_numbers). */
  function AdjacentVertical(g: Grid, row: nat, col: nat): (Option<int>, Option<int>)
    requires IsSquare(g) && row < |g| && col < |g|
  {
    (if row != |g| - 1 then Some(g[row + 1][col]) else None,
     if row != 0 then Some(g[row - 1][col]) else None)
  }

  /** (left, right) of (row, col), each None at the grid's edge
      (adjacent_horizontal_numbers). */
  function AdjacentHorizontal(g: Grid, row: nat, col: nat): (Option<int>, Option<int>)
    requires IsSquare(g) && row < |g| && col < |g|
  {
    (if col != 0 then Some(g[row][col - 1]) else None,
     if col != |g| - 1 then Some(g[row][col + 1]) else None)
  }

  /** How often `x` occurs in a pair of neighbours (tuple.count); an absent
      neighbour never matches. */
  function Occurrences(pair: (Option<int>, Option<int>), x: int): nat
  {
    (if pair.0 == Some(x) then 1 else 0) + (if pair.1 == Some(x) then 1 else 0)
  }

  /** Each neighbour is present exactly when its coordinate is on the grid,
      and then it is that cell's value. */
  lemma NeighbourLookups(g: Grid, row: nat, col: nat)
    requires IsSquare(g) && row < |g| && col < |g|
    ensures AdjacentVertical(g, row, col) == (At(g, row + 1, col), At(g, row - 1, col))
    ensures AdjacentHorizontal(g, row, col) == (At(g, row, col - 1), At(g, row, col + 1))
  {
  }

  /** Vertical neighbours are the horizontal neighbours in the transposed
      grid, in the opposite order. */
  lemma VerticalIsTransposedHorizontal(g: Grid, row: nat, col: nat)
    requires IsSquare(g) && row < |g| && col < |g|
    ensures var h := AdjacentHorizontal(Transpose(g), col, row);
            AdjacentVertical(g, row, col) == (h.1, h.0)
  {
  }

  // ---------------------------------------------------------------------
  // The rules of a resolved board
  // ---------------------------------------------------------------------

  /** Number of distinct vectors in `vs` (the length of numpy's unique
      along axis 0). */
  function DistinctCount(vs: seq<seq<int>>): (k: nat)
    ensures k <= |vs|
  {
    if vs == [] then 0
    else DistinctCount(vs[..|vs| - 1]) + (if vs[|vs| - 1] in vs[..|vs| - 1] then 0 else 1)
  }

  predicate PairwiseDistinct(vs: seq<seq<int>>) {
    forall i, j | 0 <= i < j < |vs| :: vs[i] != vs[j]
  }

  /** Counting distinct vectors gives the length exactly when no vector repeats. */
  lemma {:induction false} DistinctCountExact(vs: seq<seq<int>>)
    ensures DistinctCount(vs) == |vs| <==> PairwiseDistinct(vs)
  {
    if vs != [] {
      var pre := vs[..|vs| - 1];
      var last := vs[|vs| - 1];
      DistinctCountExact(pre);
      if PairwiseDistinct(vs) {
        forall i, j | 0 <= i < j < |pre| ensures pre[i] != pre[j] {
          assert vs[i] != vs[j];
        }
        forall i | 0 <= i < |pre| ensures pre[i] != last {
          assert vs[i] != vs[|vs| - 1];
        }
      }
      if DistinctCount(vs) == |vs| {
        assert DistinctCount(pre) == |pre| && last !in pre;
        forall i, j | 0 <= i < j < |vs| ensures vs[i] != vs[j] {
          assert vs[i] == pre[i];
          if j < |vs| - 1 {
            assert vs[j] == pre[j];
          }
        }
      }
    }
  }

  /** All rows are different and all columns are different (uniqueness_rule). */
  predicate UniquenessRule(g: Grid)
    requires IsSquare(g)
  {
    DistinctCount(g) == |g| && DistinctCount(Transpose(g)) == |g|
  }

  /** The count rule for one vector as equality_rule tests it. */
  predicate Balanced(n: int, zeros: nat, ones: nat) {
    if n % 2 == 0 then zeros == ones else zeros == ones + 1 || zeros + 1 == ones
  }

  /** The balance test of equality_rule for row i and for column i. */
  predicate RowAndColBalanced(g: Grid, i: nat)
    requires IsSquare(g) && i < |g|
  {
    Balanced(|g|, Count(g[i], 0), Count(g[i], 1)) &&
    Balanced(|g|, Count(Col(g, i), 0), Count(Col(g, i), 1))
  }

  /** equality_rule: every row, then every column, is balanced. */
  predicate EqualityRule(g: Grid)
    requires IsSquare(g)
  {
    forall i: nat | i < |g| :: RowAndColBalanced(g, i)
  }

  /** The test adjacency_rule makes at (i, j): the cell does not occur three
      times in the triple made of itself and its two horizontal, or its two
      vertical, neighbours. */
  predicate NoTripleAt(g: Grid, i: nat, j: nat)
    requires IsSquare(g) && i < |g| && j < |g|
  {
    Occurrences(AdjacentHorizontal(g, i, j), g[i][j]) + 1 != 3 &&
    Occurrences(AdjacentVertical(g, i, j), g[i][j]) + 1 != 3
  }

  /** adjacency_rule: the test holds at every cell. */
  predicate AdjacencyRule(g: Grid)
    requires IsSquare(g)
  {
    forall i: nat, j: nat | i < |g| && j < |g| :: NoTripleAt(g, i, j)
  }

  /** is_full: no cell is free. */
  predicate IsFull(g: Grid) {
    CountInGrid(g, Free) == 0
  }

  /** check_resolved_board: the goal predicate. */
  predicate CheckResolvedBoard(g: Grid)
    requires IsSquare(g)
  {
    IsFull(g) && EqualityRule(g) && AdjacencyRule(g) && UniquenessRule(g)
  }

  // The same rules stated directly over the cells.

  function Abs(x: int): nat { if x < 0 then -x else x }

  /** Balance of one finished vector: as many 0s as 1s for even N, one more
      of either for odd N. */
  predicate LineBalanced(n: int, v: seq<int>) {
    if n % 2 == 0 then Count(v, 0) == Count(v, 1) else Abs(Count(v, 0) - Count(v, 1)) == 1
  }

  /** Cells (i, j-1), (i, j), (i, j+1) are equal. */
  predicate HorizontalRun(g: Grid, i: nat, j: nat)
    requires IsSquare(g) && i < |g| && 1 <= j < |g| - 1
  {
    g[i][j - 1] == g[i][j] && g[i][j] == g[i][j + 1]
  }

  /** Cells (i-1, j), (i, j), (i+1, j) are equal. */
  predicate VerticalRun(g: Grid, i: nat, j: nat)
    requires IsSquare(g) && 1 <= i < |g| - 1 && j < |g|
  {
    g[i - 1][j] == g[i][j] && g[i][j] == g[i + 1][j]
  }

  /** No three equal consecutive cells in any row or column. */
  predicate NoThreeInARow(g: Grid)
    requires IsSquare(g)
  {
    (forall i: nat, j: nat | i < |g| && 1 <= j < |g| - 1 :: !HorizontalRun(g, i, j)) &&
    (forall i: nat, j: nat | 1 <= i < |g| - 1 && j < |g| :: !VerticalRun(g, i, j))
  }

  lemma AdjacencyRuleIff(g: Grid)
    requires IsSquare(g)
    ensures AdjacencyRule(g) <==> NoThreeInARow(g)
  {
    var n := |g|;
    if AdjacencyRule(g) {
      forall i: nat, j: nat | i < n && 1 <= j < n - 1 ensures !HorizontalRun(g, i, j) {
        assert NoTripleAt(g, i, j);
      }
      forall i: nat, j: nat | 1 <= i < n - 1 && j < n ensures !VerticalRun(g, i, j) {
        assert NoTripleAt(g, i, j);
      }
    }
    if NoThreeInARow(g) {
      forall i: nat, j: nat | i < n && j < n ensures NoTripleAt(g, i, j) {
        if 1 <= j < n - 1 {
          assert !HorizontalRun(g, i, j);
        }
        if 1 <= i < n - 1 {
          assert !VerticalRun(g, i, j);
        }
      }
    }
  }

  lemma EqualityRuleIff(g: Grid)
    requires IsSquare(g)
    ensures EqualityRule(g) <==>
              (forall i | 0 <= i < |g| :: LineBalanced(|g|, g[i])) &&
              (forall j | 0 <= j < |g| :: LineBalanced(|g|, Col(g, j)))
  {
    if EqualityRule(g) {
      forall i | 0 <= i < |g| ensures LineBalanced(|g|, g[i]) && LineBalanced(|g|, Col(g, i)) {
        assert RowAndColBalanced(g, i);
      }
    }
  }

  /** check_resolved_board holds exactly when the board is full, every row
      and column is balanced, there is no three-in-a-row, and rows as well as
      columns are pairwise distinct. */
  lemma CheckResolvedBoardIff(g: Grid)
    requires IsSquare(g)
    ensures CheckResolvedBoard(g) <==>
              (forall i, j | 0 <= i < |g| && 0 <= j < |g| :: g[i][j] != Free) &&
              (forall i | 0 <= i < |g| :: LineBalanced(|g|, g[i])) &&
              (forall j | 0 <= j < |g| :: LineBalanced(|g|, Col(g, j))) &&
              NoThreeInARow(g) &&
              PairwiseDistinct(g) && PairwiseDistinct(Transpose(g))
  {
    CountInGridZero(g, Free);
    assert IsFull(g) <==> forall i, j | 0 <= i < |g| && 0 <= j < |g| :: g[i][j] != Free;
    EqualityRuleIff(g);
    AdjacencyRuleIff(g);
    DistinctCountExact(g);
    DistinctCountExact(Transpose(g));
  }

  // ---------------------------------------------------------------------
  // Free positions
  // ---------------------------------------------------------------------

  /** Free cells of row i among its first j columns, left to right. */
  function FreeInRow(g: Grid, i: nat, j: nat): seq<(nat, nat)>
    requires IsSquare(g) && i < |g| && j <= |g|
  {
    if j == 0 then []
    else FreeInRow(g, i, j - 1) + (if g[i][j - 1] == Free then [(i, j - 1)] else [])
  }

  /** Free cells of the first i rows, in row-major order. */
  function FreeInRows(g: Grid, i: nat): seq<(nat, nat)>
    requires IsSquare(g) && i <= |g|
  {
    if i == 0 then [] else FreeInRows(g, i - 1) + FreeInRow(g, i - 1, |g|)
  }

  /** The coordinates of the free cells in row-major order (free_positions). */
  function FreePositions(g: Grid): seq<(nat, nat)>
    requires IsSquare(g)
  {
    FreeInRows(g, |g|)
  }

  predicate RowMajorBefore(p: (nat, nat), q: (nat, nat)) {
    p.0 < q.0 || (p.0 == q.0 && p.1 < q.1)
  }

  predicate StrictlyRowMajor(ps: seq<(nat, nat)>) {
    forall a, b | 0 <= a < b < |ps| :: RowMajorBefore(ps[a], ps[b])
  }

  lemma {:induction false} FreeInRowSpec(g: Grid, i: nat, j: nat)
    requires IsSquare(g) && i < |g| && j <= |g|
    ensures forall p :: p in FreeInRow(g, i, j) <==> p.0 == i && p.1 < j && g[i][p.1] == Free
    ensures StrictlyRowMajor(FreeInRow(g, i, j))
    ensures |FreeInRow(g, i, j)| == Count(g[i][..j], Free)
  {
    if j > 0 {
      FreeInRowSpec(g, i, j - 1);
      assert g[i][..j][..j - 1] == g[i][..j - 1];
      var pre := FreeInRow(g, i, j - 1);
      var s := FreeInRow(g, i, j);
      forall a, b | 0 <= a < b < |s| ensures RowMajorBefore(s[a], s[b]) {
        if b < |pre| {
          assert s[a] == pre[a] && s[b] == pre[b];
        } else {
          assert s[a] == pre[a] && pre[a] in pre;
        }
      }
    }
  }

  lemma {:induction false} FreeInRowsSpec(g: Grid, i: nat)
    requires IsSquare(g) && i <= |g|
    ensures forall p :: p in FreeInRows(g, i) <==> p.0 < i && p.1 < |g| && g[p.0][p.1] == Free
    ensures StrictlyRowMajor(FreeInRows(g, i))
    ensures |FreeInRows(g, i)| == CountInGrid(g[..i], Free)
  {
    if i > 0 {
      var n := |g|;
      FreeInRowsSpec(g, i - 1);
      FreeInRowSpec(g, i - 1, n);
      assert g[i - 1][..n] == g[i - 1];
      assert g[..i][..i - 1] == g[..i - 1];
      var pre := FreeInRows(g, i - 1);
      var row := FreeInRow(g, i - 1, n);
      var s := FreeInRows(g, i);
      assert s == pre + row;
      forall a, b | 0 <= a < b < |s| ensures RowMajorBefore(s[a], s[b]) {
        if b < |pre| {
          assert s[a] == pre[a] && s[b] == pre[b];
        } else if a < |pre| {
          assert s[a] == pre[a] && pre[a] in pre;
          assert s[b] == row[b - |pre|] && row[b - |pre|] in row;
        } else {
          assert s[a] == row[a - |pre|] && s[b] == row[b - |pre|];
        }
      }
    }
  }

  /** free_positions lists exactly the free cells, each once, in row-major
      order, and there are as many of them as free cells in the grid. */
  lemma FreePositionsSpec(g: Grid)
    requires IsSquare(g)
    ensures forall p :: p in FreePositions(g) <==> p.0 < |g| && p.1 < |g| && g[p.0][p.1] == Free
    ensures StrictlyRowMajor(FreePositions(g))
    ensures |FreePositions(g)| == CountInGrid(g, Free)
  {
    FreeInRowsSpec(g, |g|);
    assert g[..|g|] == g;
  }

  /** No position is listed twice. */
  lemma StrictlyRowMajorDistinct(ps: seq<(nat, nat)>)
    requires StrictlyRowMajor(ps)
    ensures forall a, b | 0 <= a < b < |ps| :: ps[a] != ps[b]
  {
    forall a, b | 0 <= a < b < |ps| ensures ps[a] != ps[b] {
      assert RowMajorBefore(ps[a], ps[b]);
    }
  }

  /** There are no free positions exactly when the board is full. */
  lemma NoFreePositionsIffFull(g: Grid)
    requires IsSquare(g)
    ensures |FreePositions(g)| == 0 <==> forall i, j | 0 <= i < |g| && 0 <= j < |g| :: g[i][j] != Free
  {
    FreePositionsSpec(g);
    CountInGridZero(g, Free);
  }

  // ---------------------------------------------------------------------
  // Degree count
  // ---------------------------------------------------------------------

  /** 1 for a neighbour that is on the grid and not free. */
  function Known(x: Option<int>): nat {
    if x.Some? && x.value != Free then 1 else 0
  }

  /** restrictions: how many of the up to four neighbours are filled. */
  function Restrictions(g: Grid, row: nat, col: nat): (k: nat)
    requires IsSquare(g) && row < |g| && col < |g|
    ensures k <= 4
  {
    var v := AdjacentVertical(g, row, col);
    var h := AdjacentHorizontal(g, row, col);
    Known(v.0) + Known(v.1) + Known(h.0) + Known(h.1)
  }

  /** How many neighbours (row, col) has on an n×n grid. */
  function InGridNeighbours(n: nat, row: nat, col: nat): nat {
    (if row > 0 then 1 else 0) + (if row + 1 < n then 1 else 0) +
    (if col > 0 then 1 else 0) + (if col + 1 < n then 1 else 0)
  }

  /** On a grid with no free cell, restrictions only depends on where the
      cell is: the number of its neighbours on the grid (2 in a corner, 3 on
      an edge and 4 inside when N >= 2; 0 on a 1×1 grid). */
  lemma RestrictionsWithoutFreeCells(g: Grid, row: nat, col: nat)
    requires IsSquare(g) && row < |g| && col < |g|
    requires forall i, j | 0 <= i < |g| && 0 <= j < |g| :: g[i][j] != Free
    ensures Restrictions(g, row, col) == InGridNeighbours(|g|, row, col)
  {
  }

  // ---------------------------------------------------------------------
  // The speculative play check
  // ---------------------------------------------------------------------

  /** A partial count may not exceed what a balanced vector allows:
      N/2 for even N, N//2 + 1 for odd N. */
  predicate WithinCountLimit(n: int, count: nat) {
    if n % 2 == 0 then 2 * count <= n else count <= n / 2 + 1
  }

  /** The verdict of is_valid_play on the grid after `p` has been placed:
      counts of row and column within the limit, `p` not the middle of three
      equal cells, and every row and every column distinct. */
  predicate PlayAcceptable(g: Grid, p: Play)
    requires IsSquare(g) && p.row < |g| && p.col < |g|
  {
    var n := |g|;
    WithinCountLimit(n, Count(g[p.row], 0)) && WithinCountLimit(n, Count(g[p.row], 1)) &&
    WithinCountLimit(n, Count(Col(g, p.col), 0)) && WithinCountLimit(n, Count(Col(g, p.col), 1)) &&
    Occurrences(AdjacentVertical(g, p.row, p.col), p.number) < 2 &&
    Occurrences(AdjacentHorizontal(g, p.row, p.col), p.number) < 2 &&
    UniquenessRule(g)
  }

  /** The play check in terms of the cells: it rejects exactly when a count
      of 0s or 1s in the row or column is over the limit, both vertical or
      both horizontal neighbours equal the placed number, or two rows or two
      columns are equal (free cells included). */
  lemma PlayAcceptableIff(g: Grid, p: Play)
    requires IsSquare(g) && p.row < |g| && p.col < |g|
    ensures PlayAcceptable(g, p) <==>
              WithinCountLimit(|g|, Count(g[p.row], 0)) && WithinCountLimit(|g|, Count(g[p.row], 1)) &&
              WithinCountLimit(|g|, Count(Col(g, p.col), 0)) && WithinCountLimit(|g|, Count(Col(g, p.col), 1)) &&
              !(At(g, p.row - 1, p.col) == Some(p.number) && At(g, p.row + 1, p.col) == Some(p.number)) &&
              !(At(g, p.row, p.col - 1) == Some(p.number) && At(g, p.row, p.col + 1) == Some(p.number)) &&
              PairwiseDistinct(g) && PairwiseDistinct(Transpose(g))
  {
    NeighbourLookups(g, p.row, p.col);
    DistinctCountExact(g);
    DistinctCountExact(Transpose(g));
  }

  /** On a full balanced vector each value occurs at most the limit. */
  lemma BalancedWithinLimit(v: seq<int>, x: int)
    requires forall k | 0 <= k < |v| :: 0 <= v[k] <= 1
    requires LineBalanced(|v|, v)
    requires x == 0 || x == 1
    ensures WithinCountLimit(|v|, Count(v, x))
  {
    CountsCoverCells(v);
    CountZero(v, Free);
  }

  /** The speculative check never rejects a play whose result is already a
      resolved board. */
  lemma ResolvedBoardPassesPlayCheck(g: Grid, p: Play)
    requires WellFormed(g) && p.row < |g| && p.col < |g|
    requires g[p.row][p.col] == p.number
    requires CheckResolvedBoard(g)
    ensures PlayAcceptable(g, p)
  {
    CheckResolvedBoardIff(g);
    PlayAcceptableIff(g, p);
    FilledLineWithinLimit(g[p.row]);
    FilledLineWithinLimit(Col(g, p.col));
    NoRunThrough(g, p);
  }

  /** A balanced line without free cells has no count over the limit. */
  lemma FilledLineWithinLimit(v: seq<int>)
    requires forall k | 0 <= k < |v| :: 0 <= v[k] <= 2 && v[k] != Free
    requires LineBalanced(|v|, v)
    ensures WithinCountLimit(|v|, Count(v, 0)) && WithinCountLimit(|v|, Count(v, 1))
  {
    BalancedWithinLimit(v, 0);
    BalancedWithinLimit(v, 1);
  }

  /** Without three equal cells in a row, a cell's two vertical (or two
      horizontal) neighbours are never both equal to it. */
  lemma NoRunThrough(g: Grid, p: Play)
    requires IsSquare(g) && p.row < |g| && p.col < |g|
    requires g[p.row][p.col] == p.number && NoThreeInARow(g)
    ensures !(At(g, p.row - 1, p.col) == Some(p.number) && At(g, p.row + 1, p.col) == Some(p.number))
    ensures !(At(g, p.row, p.col - 1) == Some(p.number) && At(g, p.row, p.col + 1) == Some(p.number))
  {
    var n, r, c := |g|, p.row, p.col;
    if 1 <= r < n - 1 {
      assert !VerticalRun(g, r, c);
    }
    if 1 <= c < n - 1 {
      assert !HorizontalRun(g, r, c);
    }
  }

  /** The grid of side n with every cell free. */
  function EmptyGrid(n: nat): (g: Grid)
    ensures WellFormed(g) && |g| == n
    ensures forall i, j | 0 <= i < n && 0 <= j < n :: g[i][j] == Free
  {
    seq(n, i => seq(n, j => Free))
  }

  /** Because uniqueness is also applied to partial boards, on an empty board
      of side 3 or more every single play is rejected: two untouched rows
      are still equal. */
  lemma EmptyBoardRejectsEveryPlay(n: nat, p: Play)
    requires n >= 3 && p.row < n && p.col < n && 0 <= p.number <= 1
    ensures !PlayAcceptable(Place(EmptyGrid(n), p.row, p.col, p.number), p)
  {
    var g := Place(EmptyGrid(n), p.row, p.col, p.number);
    PlayAcceptableIff(g, p);
    var a: nat := if p.row == 0 then 1 else 0;
    var b: nat := if p.row == 2 then 1 else 2;
    assert a < b && a != p.row && b != p.row;
    assert g[a] == g[b];
  }
}
