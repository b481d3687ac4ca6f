/**
 * The forced moves that actions looks for before it enumerates candidate
 * plays, in the order it looks for them: two rows that differ in exactly
 * one cell, then two columns that do, then, cell by cell, a known cell
 * whose free neighbour would close a run of three, or a free cell whose
 * value infer_number deduces.
 */
module Deduction {
  import opened Grids

  // ---------------------------------------------------------------------
  // Comparing two vectors
  // ---------------------------------------------------------------------

  /** The positions below m at which u and w differ, ascending (numpy's
      where on the element-wise inequality). */
  function Differences(u: seq<int>, w: seq<int>, m: nat): (d: seq<nat>)
    requires |u| == |w| && m <= |u|
    ensures forall a | 0 <= a < |d| :: d[a] < m
  {
    if m == 0 then []
    else Differences(u, w, m - 1) + (if u[m - 1] != w[m - 1] then [m - 1] else [])
  }

  lemma {:induction false} DifferencesSpec(u: seq<int>, w: seq<int>, m: nat)
    requires |u| == |w| && m <= |u|
    ensures forall k: nat :: k in Differences(u, w, m) <==> k < m && u[k] != w[k]
    ensures forall a, b | 0 <= a < b < |Differences(u, w, m)| ::
              Differences(u, w, m)[a] < Differences(u, w, m)[b]
  {
    if m > 0 {
      DifferencesSpec(u, w, m - 1);
    }
  }

  /** u and w have the same length and differ at `pos` and nowhere else. */
  predicate DifferOnlyAt(u: seq<int>, w: seq<int>, pos: nat) {
    |u| == |w| && pos < |u| && u[pos] != w[pos] &&
    forall k | 0 <= k < |u| && k != pos :: u[k] == w[k]
  }

  /** Exactly one difference is found precisely when the vectors differ at
      one position only, and then that position is the one found. */
  lemma SingleDifference(u: seq<int>, w: seq<int>)
    requires |u| == |w|
    ensures |Differences(u, w, |u|)| == 1 ==> DifferOnlyAt(u, w, Differences(u, w, |u|)[0])
    ensures forall pos: nat | DifferOnlyAt(u, w, pos) :: Differences(u, w, |u|) == [pos]
  {
    var d := Differences(u, w, |u|);
    DifferencesSpec(u, w, |u|);
    if |d| == 1 {
      forall k | 0 <= k < |u| && k != d[0] ensures u[k] == w[k] {
      }
    }
    forall pos: nat | DifferOnlyAt(u, w, pos) ensures d == [pos] {
      DifferencesOfSingle(u, w, |u|, pos);
    }
  }

  lemma {:induction false} DifferencesOfSingle(u: seq<int>, w: seq<int>, m: nat, pos: nat)
    requires DifferOnlyAt(u, w, pos) && m <= |u|
    ensures Differences(u, w, m) == if pos < m then [pos] else []
  {
    if m > 0 {
      DifferencesOfSingle(u, w, m - 1, pos);
    }
  }

  /** What comparing vector u with vector w deduces: the number to write
      into w's free cell, or into u's. */
  datatype PairFill = FillOther(pos: nat, number: int) | FillThis(pos: nat, number: int)

  /** The comparison made for each pair of rows (or of columns): when the
      two differ in exactly one cell and that cell is free in one of them,
      the free one is to get the opposite of the other's value; w is
      looked at first. */
  function ComparePair(u: seq<int>, w: seq<int>): Option<PairFill>
    requires |u| == |w|
  {
    var d := Differences(u, w, |u|);
    if |d| != 1 then None
    else
      var pos := d[0];
      if w[pos] == Free then Some(FillOther(pos, 1 - u[pos]))
      else if u[pos] == Free then Some(FillThis(pos, 1 - w[pos]))
      else None
  }

  /** A fill is found exactly when the vectors differ in one cell only and
      that cell is free in one of them; the free cell gets the opposite of
      the other vector's value there. */
  lemma ComparePairSpec(u: seq<int>, w: seq<int>)
    requires |u| == |w| && CellValues(u) && CellValues(w)
    ensures var f := ComparePair(u, w);
            (f.Some? ==> DifferOnlyAt(u, w, f.value.pos) && (f.value.number == 0 || f.value.number == 1)) &&
            (f.Some? && f.value.FillOther? ==> w[f.value.pos] == Free && f.value.number == 1 - u[f.value.pos]) &&
            (f.Some? && f.value.FillThis? ==> u[f.value.pos] == Free && f.value.number == 1 - w[f.value.pos]) &&
            (f.None? <==> forall pos: nat | DifferOnlyAt(u, w, pos) :: u[pos] != Free && w[pos] != Free)
  {
    SingleDifference(u, w);
  }

  // ---------------------------------------------------------------------
  // The row scan and the column scan
  // ---------------------------------------------------------------------

  /** The move that comparing vector i with vector j yields. The vectors
      are the rows of the board when byRow holds, otherwise its columns
      (vs is then the transposed board), and the play is placed
      accordingly. */
  function PairMove(vs: Grid, i: nat, j: nat, byRow: bool): Option<Play>
    requires WellFormed(vs) && i < |vs| && j < |vs|
  {
    match ComparePair(vs[i], vs[j])
    case None => None
    case Some(FillOther(pos, x)) => Some(if byRow then Play(j, pos, x) else Play(pos, j, x))
    case Some(FillThis(pos, x)) => Some(if byRow then Play(i, pos, x) else Play(pos, i, x))
  }

  /** The first move found by the nested loops over pairs (i, j), from pair
      (i, j) on. */
  function PairScan(vs: Grid, i: nat, j: nat, byRow: bool): Option<Play>
    requires WellFormed(vs) && i <= |vs| && j <= |vs|
    decreases |vs| - i, |vs| - j
  {
    if i == |vs| then None
    else if j == |vs| then PairScan(vs, i + 1, 0, byRow)
    else
      var m := PairMove(vs, i, j, byRow);
      if m.Some? then m else PairScan(vs, i, j + 1, byRow)
  }

  lemma TransposeWellFormed(g: Grid)
    requires WellFormed(g)
    ensures WellFormed(Transpose(g))
  {
  }

  function RowPairMove(g: Grid): Option<Play>
    requires WellFormed(g)
  {
    PairScan(g, 0, 0, true)
  }

  function ColPairMove(g: Grid): Option<Play>
    requires WellFormed(g)
  {
    TransposeWellFormed(g);
    PairScan(Transpose(g), 0, 0, false)
  }

  /** Cell (t, pos) of vs is free, and writing the opposite of `number`
      there would make vector t equal to another vector k. */
  predicate Twin(vs: Grid, t: nat, pos: nat, number: int)
    requires IsSquare(vs)
  {
    t < |vs| && pos < |vs| && vs[t][pos] == Free &&
    exists k | 0 <= k < |vs| :: DifferOnlyAt(vs[t], vs[k], pos) && vs[k][pos] == 1 - number
  }

  /** The placement Twin describes, seen on the board: vectors are rows
      when byRow holds, columns otherwise. */
  predicate TwinPlay(vs: Grid, p: Play, byRow: bool)
    requires IsSquare(vs)
  {
    (p.number == 0 || p.number == 1) &&
    if byRow then Twin(vs, p.row, p.col, p.number) else Twin(vs, p.col, p.row, p.number)
  }

  lemma PairMoveForm(vs: Grid, i: nat, j: nat, byRow: bool)
    requires WellFormed(vs) && i < |vs| && j < |vs|
    ensures PairMove(vs, i, j, byRow).Some? ==> TwinPlay(vs, PairMove(vs, i, j, byRow).value, byRow)
  {
    var f := ComparePair(vs[i], vs[j]);
    ComparePairSpec(vs[i], vs[j]);
    if f.Some? {
      var pos := f.value.pos;
      if f.value.FillOther? {
        assert DifferOnlyAt(vs[j], vs[i], pos);
      } else {
        assert DifferOnlyAt(vs[i], vs[j], pos);
      }
    }
  }

  /** Every move the pair scan finds fills a free cell with 0 or 1, the
      opposite of what would make its vector a copy of another one. */
  lemma {:induction false} PairScanForm(vs: Grid, i: nat, j: nat, byRow: bool)
    requires WellFormed(vs) && i <= |vs| && j <= |vs|
    ensures PairScan(vs, i, j, byRow).Some? ==> TwinPlay(vs, PairScan(vs, i, j, byRow).value, byRow)
    decreases |vs| - i, |vs| - j
  {
    if i == |vs| {
    } else if j == |vs| {
      PairScanForm(vs, i + 1, 0, byRow);
    } else {
      PairMoveForm(vs, i, j, byRow);
      PairScanForm(vs, i, j + 1, byRow);
    }
  }

  /** On vectors without a free cell the pair scan finds nothing. */
  lemma {:induction false} PairScanFull(vs: Grid, i: nat, j: nat, byRow: bool)
    requires WellFormed(vs) && i <= |vs| && j <= |vs|
    requires forall a, b | 0 <= a < |vs| && 0 <= b < |vs| :: vs[a][b] != Free
    ensures PairScan(vs, i, j, byRow) == None
    decreases |vs| - i, |vs| - j
  {
    if i == |vs| {
    } else if j == |vs| {
      PairScanFull(vs, i + 1, 0, byRow);
    } else {
      PairScanFull(vs, i, j + 1, byRow);
    }
  }

  // ---------------------------------------------------------------------
  // The cell scan
  // ---------------------------------------------------------------------

  /** infer_number: 1 between two 0s, 0 between two 1s, then 1 when the row
      or column already holds half the board's width in 0s, 0 when it holds
      that many 1s; nothing otherwise. The comparison count >= N/2 is made
      in exact arithmetic as 2 * count >= N. */
  function InferNumber(g: Grid, row: nat, col: nat): (r: Option<int>)
    requires WellFormed(g) && row < |g| && col < |g|
    ensures r.Some? ==> r.value == 0 || r.value == 1
  {
    var n := |g|;
    var h := AdjacentHorizontal(g, row, col);
    var v := AdjacentVertical(g, row, col);
    if Occurrences(h, 0) == 2 || Occurrences(v, 0) == 2 then Some(1)
    else if Occurrences(h, 1) == 2 || Occurrences(v, 1) == 2 then Some(0)
    else if 2 * Count(g[row], 0) >= n || 2 * Count(Col(g, col), 0) >= n then Some(1)
    else if 2 * Count(g[row], 1) >= n || 2 * Count(Col(g, col), 1) >= n then Some(0)
    else None
  }

  /** The move that the cell scan finds at (i, j): next to a known cell c
      whose other neighbour on the same line is also c, a free neighbour
      gets 1 - c (left, right, below, above in that order); a free cell
      gets what infer_number deduces. */
  function CellMove(g: Grid, i: nat, j: nat): (m: Option<Play>)
    requires WellFormed(g) && i < |g| && j < |g|
    ensures m.Some? ==> m.value.row < |g| && m.value.col < |g| &&
                        g[m.value.row][m.value.col] == Free &&
                        (m.value.number == 0 || m.value.number == 1)
  {
    var c := g[i][j];
    var h := AdjacentHorizontal(g, i, j);
    var v := AdjacentVertical(g, i, j);
    if c == 0 || c == 1 then
      if h == (Some(Free), Some(c)) then Some(Play(i, j - 1, 1 - c))
      else if h == (Some(c), Some(Free)) then Some(Play(i, j + 1, 1 - c))
      else if v == (Some(Free), Some(c)) then Some(Play(i + 1, j, 1 - c))
      else if v == (Some(c), Some(Free)) then Some(Play(i - 1, j, 1 - c))
      else None
    else
      match InferNumber(g, i, j)
      case None => None
      case Some(x) => Some(Play(i, j, x))
  }

  /** The first move the cell scan finds, from cell (i, j) on, row by row. */
  function CellScan(g: Grid, i: nat, j: nat): Option<Play>
    requires WellFormed(g) && i <= |g| && j <= |g|
    decreases |g| - i, |g| - j
  {
    if i == |g| then None
    else if j == |g| then CellScan(g, i + 1, 0)
    else
      var m := CellMove(g, i, j);
      if m.Some? then m else CellScan(g, i, j + 1)
  }

  /** The move actions returns on its own, if any: the row scan first, then
      the column scan, then the cell scan. */
  function ForcedMove(g: Grid): Option<Play>
    requires WellFormed(g)
  {
    var r := RowPairMove(g);
    if r.Some? then r
    else
      var c := ColPairMove(g);
      if c.Some? then c else CellScan(g, 0, 0)
  }

  // ---------------------------------------------------------------------
  // Why a cell-scan move is forced
  // ---------------------------------------------------------------------

  /** The two cells beyond (r, c) in direction (dr, dc) both hold x. */
  predicate PairBeyond(g: Grid, r: int, c: int, dr: int, dc: int, x: int)
    requires IsSquare(g)
  {
    At(g, r + dr, c + dc) == Some(x) && At(g, r + 2 * dr, c + 2 * dc) == Some(x)
  }

  /** Writing the opposite of p.number at p would extend a pair into a
      run of three. */
  predicate ExtendsPair(g: Grid, p: Play)
    requires IsSquare(g)
  {
    var x := 1 - p.number;
    PairBeyond(g, p.row, p.col, 0, -1, x) || PairBeyond(g, p.row, p.col, 0, 1, x) ||
    PairBeyond(g, p.row, p.col, 1, 0, x) || PairBeyond(g, p.row, p.col, -1, 0, x)
  }

  /** Both neighbours of p on a line hold the opposite of p.number. */
  predicate Sandwiched(g: Grid, p: Play)
    requires IsSquare(g)
  {
    var x := 1 - p.number;
    (At(g, p.row, p.col - 1) == Some(x) && At(g, p.row, p.col + 1) == Some(x)) ||
    (At(g, p.row - 1, p.col) == Some(x) && At(g, p.row + 1, p.col) == Some(x))
  }

  /** The row or column of p already holds at least half the board's width
      of the opposite of p.number. */
  predicate Saturated(g: Grid, p: Play)
    requires IsSquare(g) && p.row < |g| && p.col < |g|
  {
    var x := 1 - p.number;
    2 * Count(g[p.row], x) >= |g| || 2 * Count(Col(g, p.col), x) >= |g|
  }

  /** Every move of the cell scan fills a free cell for one of the three
      reasons above: a move made next to a known cell extends a pair, and a
      move infer_number makes is sandwiched or saturated. */
  lemma CellMoveJustified(g: Grid, i: nat, j: nat)
    requires WellFormed(g) && i < |g| && j < |g|
    ensures var m := CellMove(g, i, j);
            m.Some? ==> ExtendsPair(g, m.value) || Sandwiched(g, m.value) || Saturated(g, m.value)
    ensures var m := CellMove(g, i, j);
            m.Some? && g[i][j] != Free ==> ExtendsPair(g, m.value)
    ensures var m := CellMove(g, i, j);
            m.Some? && g[i][j] == Free ==> m.value == Play(i, j, m.value.number) &&
                                           (Sandwiched(g, m.value) || Saturated(g, m.value))
  {
    var m := CellMove(g, i, j);
    if m.Some? {
      var p := m.value;
      var c := g[i][j];
      NeighbourLookups(g, i, j);
      if c == 0 || c == 1 {
        var h := AdjacentHorizontal(g, i, j);
        var v := AdjacentVertical(g, i, j);
        if h == (Some(Free), Some(c)) {
          assert PairBeyond(g, p.row, p.col, 0, 1, c);
        } else if h == (Some(c), Some(Free)) {
          assert PairBeyond(g, p.row, p.col, 0, -1, c);
        } else if v == (Some(Free), Some(c)) {
          assert PairBeyond(g, p.row, p.col, -1, 0, c);
        } else {
          assert PairBeyond(g, p.row, p.col, 1, 0, c);
        }
      }
    }
  }

  /** s is a completion of g: same size, and equal to g on every cell g
      already knows. */
  predicate Agrees(s: Grid, g: Grid)
    requires IsSquare(s) && IsSquare(g)
  {
    |s| == |g| && forall i, j | 0 <= i < |g| && 0 <= j < |g| && g[i][j] != Free :: s[i][j] == g[i][j]
  }

  lemma {:induction false} CountMonotone(v: seq<int>, w: seq<int>, x: int)
    requires |v| == |w|
    requires forall m | 0 <= m < |v| :: w[m] == x ==> v[m] == x
    ensures Count(v, x) >= Count(w, x)
  {
    if v != [] {
      CountMonotone(v[..|v| - 1], w[..|w| - 1], x);
    }
  }

  /** A completion that fills one more cell with x has one more x. */
  lemma {:induction false} CountGains(v: seq<int>, w: seq<int>, k: nat, x: int)
    requires |v| == |w| && k < |v|
    requires forall m | 0 <= m < |v| :: w[m] == x ==> v[m] == x
    requires w[k] != x && v[k] == x
    ensures Count(v, x) >= Count(w, x) + 1
  {
    var n := |v|;
    if k == n - 1 {
      CountMonotone(v[..n - 1], w[..n - 1], x);
    } else {
      CountGains(v[..n - 1], w[..n - 1], k, x);
    }
  }

  /** A resolved board that completes g cannot hold x at a free cell of g
      next to a pair of x, or between two x. */
  lemma SolvedNeverExtendsRun(g: Grid, s: Grid, r: nat, c: nat, x: int)
    requires WellFormed(g) && WellFormed(s) && Agrees(s, g)
    requires r < |g| && c < |g| && (x == 0 || x == 1)
    requires PairBeyond(g, r, c, 0, -1, x) || PairBeyond(g, r, c, 0, 1, x) ||
             PairBeyond(g, r, c, 1, 0, x) || PairBeyond(g, r, c, -1, 0, x) ||
             (At(g, r, c - 1) == Some(x) && At(g, r, c + 1) == Some(x)) ||
             (At(g, r - 1, c) == Some(x) && At(g, r + 1, c) == Some(x))
    requires NoThreeInARow(s)
    ensures s[r][c] != x
  {
    if PairBeyond(g, r, c, 0, -1, x) {
      assert !HorizontalRun(s, r, c - 1);
    } else if PairBeyond(g, r, c, 0, 1, x) {
      assert !HorizontalRun(s, r, c + 1);
    } else if PairBeyond(g, r, c, 1, 0, x) {
      assert !VerticalRun(s, r + 1, c);
    } else if PairBeyond(g, r, c, -1, 0, x) {
      assert !VerticalRun(s, r - 1, c);
    } else if At(g, r, c - 1) == Some(x) && At(g, r, c + 1) == Some(x) {
      assert !HorizontalRun(s, r, c);
    } else {
      assert !VerticalRun(s, r, c);
    }
  }

  lemma RunForbidden(g: Grid, s: Grid, p: Play)
    requires WellFormed(g) && WellFormed(s) && Agrees(s, g)
    requires p.row < |g| && p.col < |g| && (p.number == 0 || p.number == 1)
    requires ExtendsPair(g, p) || Sandwiched(g, p)
    requires CheckResolvedBoard(s)
    ensures s[p.row][p.col] == p.number
  {
    RunReasons(g, p);
    ResolvedHasNoRun(s, p.row, p.col);
    SolvedNeverExtendsRun(g, s, p.row, p.col, 1 - p.number);
  }

  /** A resolved board has no run of three, and a 0 or 1 in cell (r, c). */
  lemma ResolvedHasNoRun(s: Grid, r: nat, c: nat)
    requires WellFormed(s) && CheckResolvedBoard(s) && r < |s| && c < |s|
    ensures NoThreeInARow(s) && (s[r][c] == 0 || s[r][c] == 1)
  {
    CheckResolvedBoardIff(s);
  }

  /** Both run reasons, stated over the neighbouring cells. */
  lemma RunReasons(g: Grid, p: Play)
    requires IsSquare(g)
    requires ExtendsPair(g, p) || Sandwiched(g, p)
    ensures var r, c, x := p.row, p.col, 1 - p.number;
            PairBeyond(g, r, c, 0, -1, x) || PairBeyond(g, r, c, 0, 1, x) ||
            PairBeyond(g, r, c, 1, 0, x) || PairBeyond(g, r, c, -1, 0, x) ||
            (At(g, r, c - 1) == Some(x) && At(g, r, c + 1) == Some(x)) ||
            (At(g, r - 1, c) == Some(x) && At(g, r + 1, c) == Some(x))
  {
  }

  /** A balanced vector that completes v cannot get one more x once v holds
      half its length of x. */
  lemma SaturationForbidden(v: seq<int>, w: seq<int>, k: nat, x: int)
    requires |v| == |w| && k < |w| && w[k] == Free && (x == 0 || x == 1)
    requires forall m | 0 <= m < |w| && w[m] != Free :: v[m] == w[m]
    requires forall m | 0 <= m < |v| :: 0 <= v[m] <= 1
    requires LineBalanced(|v|, v)
    requires 2 * Count(w, x) >= |w|
    ensures v[k] != x
  {
    if v[k] == x {
      CountGains(v, w, k, x);
      BalancedWithinLimit(v, x);
    }
  }

  /** What a resolved board guarantees that the soundness argument uses. */
  lemma ResolvedFacts(s: Grid)
    requires WellFormed(s) && CheckResolvedBoard(s)
    ensures forall i, j | 0 <= i < |s| && 0 <= j < |s| :: 0 <= s[i][j] <= 1
    ensures forall i | 0 <= i < |s| :: LineBalanced(|s|, s[i])
    ensures forall j | 0 <= j < |s| :: LineBalanced(|s|, Col(s, j))
    ensures NoThreeInARow(s)
  {
    CheckResolvedBoardIff(s);
  }

  lemma RowSaturationForbidden(g: Grid, s: Grid, r: nat, c: nat, x: int)
    requires WellFormed(g) && WellFormed(s) && Agrees(s, g)
    requires r < |g| && c < |g| && g[r][c] == Free && (x == 0 || x == 1)
    requires CheckResolvedBoard(s)
    requires 2 * Count(g[r], x) >= |g|
    ensures s[r][c] == 1 - x
  {
    ResolvedFacts(s);
    SaturationForbidden(s[r], g[r], c, x);
  }

  lemma ColSaturationForbidden(g: Grid, s: Grid, r: nat, c: nat, x: int)
    requires WellFormed(g) && WellFormed(s) && Agrees(s, g)
    requires r < |g| && c < |g| && g[r][c] == Free && (x == 0 || x == 1)
    requires CheckResolvedBoard(s)
    requires 2 * Count(Col(g, c), x) >= |g|
    ensures s[r][c] == 1 - x
  {
    ResolvedFacts(s);
    var v, w := Col(s, c), Col(g, c);
    assert forall m | 0 <= m < |w| && w[m] != Free :: v[m] == w[m] by {
      forall m | 0 <= m < |w| && w[m] != Free ensures v[m] == w[m] {
        assert w[m] == g[m][c] && v[m] == s[m][c];
      }
    }
    SaturationForbidden(v, w, r, x);
  }

  /** The three reasons are sound: any resolved board that completes g has
      p.number at p. */
  lemma JustifiedMoveIsForced(g: Grid, s: Grid, p: Play)
    requires WellFormed(g) && WellFormed(s) && Agrees(s, g)
    requires p.row < |g| && p.col < |g| && g[p.row][p.col] == Free
    requires p.number == 0 || p.number == 1
    requires ExtendsPair(g, p) || Sandwiched(g, p) || Saturated(g, p)
    requires CheckResolvedBoard(s)
    ensures s[p.row][p.col] == p.number
  {
    var r, c, x := p.row, p.col, 1 - p.number;
    if ExtendsPair(g, p) || Sandwiched(g, p) {
      RunForbidden(g, s, p);
    } else if 2 * Count(g[r], x) >= |g| {
      RowSaturationForbidden(g, s, r, c, x);
    } else {
      ColSaturationForbidden(g, s, r, c, x);
    }
  }

  /** Every move of the cell scan is forced: it holds in every resolved
      board that completes g. */
  lemma CellScanSound(g: Grid, s: Grid, i: nat, j: nat)
    requires WellFormed(g) && WellFormed(s) && Agrees(s, g) && CheckResolvedBoard(s)
    requires i <= |g| && j <= |g|
    ensures var m := CellScan(g, i, j);
            m.Some? ==> m.value.row < |s| && m.value.col < |s| &&
                        s[m.value.row][m.value.col] == m.value.number
  {
    var m := CellScan(g, i, j);
    CellScanJustified(g, i, j);
    if m.Some? {
      JustifiedMoveIsForced(g, s, m.value);
    }
  }

  /** On a board without free cells the cell scan finds nothing. */
  lemma {:induction false} CellScanFull(g: Grid, i: nat, j: nat)
    requires WellFormed(g) && i <= |g| && j <= |g|
    requires forall a, b | 0 <= a < |g| && 0 <= b < |g| :: g[a][b] != Free
    ensures CellScan(g, i, j) == None
    decreases |g| - i, |g| - j
  {
    if i == |g| {
    } else if j == |g| {
      CellScanFull(g, i + 1, 0);
    } else {
      CellScanFull(g, i, j + 1);
    }
  }

  // ---------------------------------------------------------------------
  // What a forced move is
  // ---------------------------------------------------------------------

  /** A forced move fills a free cell with 0 or 1, and is justified by a
      row or column it would otherwise copy, or by one of the cell-scan
      reasons. */
  lemma ForcedMoveForm(g: Grid)
    requires WellFormed(g)
    ensures var m := ForcedMove(g);
            m.Some? ==>
              var p := m.value;
              p.row < |g| && p.col < |g| && g[p.row][p.col] == Free &&
              (p.number == 0 || p.number == 1) &&
              (Twin(g, p.row, p.col, p.number) || Twin(Transpose(g), p.col, p.row, p.number) ||
               ExtendsPair(g, p) || Sandwiched(g, p) || Saturated(g, p))
  {
    TransposeWellFormed(g);
    PairScanForm(g, 0, 0, true);
    PairScanForm(Transpose(g), 0, 0, false);
    if RowPairMove(g).None? && ColPairMove(g).None? {
      CellScanJustified(g, 0, 0);
    }
  }

  lemma {:induction false} CellScanJustified(g: Grid, i: nat, j: nat)
    requires WellFormed(g) && i <= |g| && j <= |g|
    ensures var m := CellScan(g, i, j);
            m.Some? ==> m.value.row < |g| && m.value.col < |g| && g[m.value.row][m.value.col] == Free &&
                        (m.value.number == 0 || m.value.number == 1) &&
                        (ExtendsPair(g, m.value) || Sandwiched(g, m.value) || Saturated(g, m.value))
    decreases |g| - i, |g| - j
  {
    if i == |g| {
    } else if j == |g| {
      CellScanJustified(g, i + 1, 0);
    } else {
      CellMoveJustified(g, i, j);
      CellScanJustified(g, i, j + 1);
    }
  }

  /** The pair scan from (i, j) finds nothing exactly when no pair at or
      after (i, j), in the order of the nested loops, yields a move. */
  lemma {:induction false} PairScanNoneIff(vs: Grid, i: nat, j: nat, byRow: bool)
    requires WellFormed(vs) && i <= |vs| && j <= |vs|
    ensures PairScan(vs, i, j, byRow) == None <==>
              forall a, b | 0 <= a < |vs| && 0 <= b < |vs| && (i < a || (a == i && j <= b)) ::
                PairMove(vs, a, b, byRow) == None
    decreases |vs| - i, |vs| - j
  {
    if i == |vs| {
    } else if j == |vs| {
      PairScanNoneIff(vs, i + 1, 0, byRow);
    } else {
      PairScanNoneIff(vs, i, j + 1, byRow);
    }
  }

  /** The cell scan from (i, j) finds nothing exactly when no cell at or
      after (i, j), in row-major order, yields a move. */
  lemma {:induction false} CellScanNoneIff(g: Grid, i: nat, j: nat)
    requires WellFormed(g) && i <= |g| && j <= |g|
    ensures CellScan(g, i, j) == None <==>
              forall a, b | 0 <= a < |g| && 0 <= b < |g| && (i < a || (a == i && j <= b)) ::
                CellMove(g, a, b) == None
    decreases |g| - i, |g| - j
  {
    if i == |g| {
    } else if j == |g| {
      CellScanNoneIff(g, i + 1, 0);
    } else {
      CellScanNoneIff(g, i, j + 1);
    }
  }

  /** actions finds no forced move exactly when no pair of rows, no pair of
      columns and no cell yields one: only then does it go on to the
      trials. */
  lemma ForcedMoveNoneIff(g: Grid)
    requires WellFormed(g)
    ensures WellFormed(Transpose(g)) &&
            (ForcedMove(g) == None <==>
               forall i, j | 0 <= i < |g| && 0 <= j < |g| ::
                 PairMove(g, i, j, true) == None && PairMove(Transpose(g), i, j, false) == None &&
                 CellMove(g, i, j) == None)
  {
    TransposeWellFormed(g);
    PairScanNoneIff(g, 0, 0, true);
    PairScanNoneIff(Transpose(g), 0, 0, false);
    CellScanNoneIff(g, 0, 0);
  }

  /** A full board has no forced move. */
  lemma FullBoardHasNoForcedMove(g: Grid)
    requires WellFormed(g) && IsFull(g)
    ensures ForcedMove(g) == None
  {
    CountInGridZero(g, Free);
    TransposeWellFormed(g);
    PairScanFull(g, 0, 0, true);
    PairScanFull(Transpose(g), 0, 0, false);
    CellScanFull(g, 0, 0);
  }

  /** The row comparison is not forced in general: rows 0 and 1 of this
      board differ only in their last cell, so a 0 is written there in
      row 0, yet a resolved board that agrees with every known cell has a 1
      in that cell (rows 0 and 1 also come to differ in their first cell). */
  lemma PairMoveNotForced()
    ensures var g := [[2, 0, 2], [2, 0, 1], [2, 2, 2]];
            var s := [[1, 0, 1], [0, 0, 1], [0, 1, 0]];
            WellFormed(g) && WellFormed(s) && Agrees(s, g) && CheckResolvedBoard(s) &&
            ForcedMove(g) == Some(Play(0, 2, 0)) && s[0][2] == 1
  {
    var g := [[2, 0, 2], [2, 0, 1], [2, 2, 2]];
    var s := [[1, 0, 1], [0, 0, 1], [0, 1, 0]];
    CounterexampleMove(g);
    CounterexampleResolved(s);
    CounterexampleAgrees(s, g);
  }

  lemma CounterexampleAgrees(s: Grid, g: Grid)
    requires g == [[2, 0, 2], [2, 0, 1], [2, 2, 2]]
    requires s == [[1, 0, 1], [0, 0, 1], [0, 1, 0]]
    ensures IsSquare(s) && IsSquare(g) && Agrees(s, g)
  {
    assert g[0] == [2, 0, 2] && g[1] == [2, 0, 1] && g[2] == [2, 2, 2];
    assert s[0] == [1, 0, 1] && s[1] == [0, 0, 1] && s[2] == [0, 1, 0];
    forall i, j | 0 <= i < 3 && 0 <= j < 3 && g[i][j] != Free ensures s[i][j] == g[i][j] {
      assert i == 0 || i == 1 || i == 2;
    }
  }

  lemma CounterexampleMove(g: Grid)
    requires g == [[2, 0, 2], [2, 0, 1], [2, 2, 2]]
    ensures WellFormed(g) && ForcedMove(g) == Some(Play(0, 2, 0))
  {
    assert g[0] == [2, 0, 2] && g[1] == [2, 0, 1] && g[2] == [2, 2, 2];
    assert WellFormed(g);
    CounterexampleComparisons(g[0], g[1]);
    assert PairMove(g, 0, 0, true) == None;
    assert PairMove(g, 0, 1, true) == Some(Play(0, 2, 0));
    assert PairScan(g, 0, 1, true) == Some(Play(0, 2, 0));
  }

  /** The first two comparisons of the row scan on the counterexample. */
  lemma CounterexampleComparisons(u: seq<int>, w: seq<int>)
    requires u == [2, 0, 2] && w == [2, 0, 1]
    ensures ComparePair(u, u) == None
    ensures ComparePair(u, w) == Some(FillThis(2, 0))
  {
    assert Differences(u, u, 1) == [];
    assert Differences(u, u, 2) == [];
    assert Differences(u, u, 3) == [];
    assert Differences(u, w, 1) == [];
    assert Differences(u, w, 2) == [];
    assert Differences(u, w, 3) == [2];
  }

  lemma CounterexampleResolved(s: Grid)
    requires s == [[1, 0, 1], [0, 0, 1], [0, 1, 0]]
    ensures WellFormed(s) && CheckResolvedBoard(s)
  {
    CounterexampleBalanced(s);
    CounterexampleShape(s);
    CheckResolvedBoardIff(s);
  }

  lemma CounterexampleBalanced(s: Grid)
    requires s == [[1, 0, 1], [0, 0, 1], [0, 1, 0]]
    ensures IsSquare(s)
    ensures forall i | 0 <= i < 3 :: LineBalanced(3, s[i]) && LineBalanced(3, Col(s, i))
  {
    assert Col(s, 0) == [1, 0, 0] && Col(s, 1) == [0, 0, 1] && Col(s, 2) == [1, 1, 0];
    TripleBalanced(1, 0, 1);
    TripleBalanced(0, 0, 1);
    TripleBalanced(0, 1, 0);
    TripleBalanced(1, 0, 0);
    TripleBalanced(1, 1, 0);
  }

  /** Three cells of 0 and 1, not all equal, are balanced. */
  lemma TripleBalanced(a: int, b: int, c: int)
    requires 0 <= a <= 1 && 0 <= b <= 1 && 0 <= c <= 1 && !(a == b == c)
    ensures LineBalanced(3, [a, b, c])
  {
    CountIsMultiplicity([a, b, c], 0);
    CountIsMultiplicity([a, b, c], 1);
  }

  lemma CounterexampleShape(s: Grid)
    requires s == [[1, 0, 1], [0, 0, 1], [0, 1, 0]]
    ensures WellFormed(s)
    ensures forall i, j | 0 <= i < 3 && 0 <= j < 3 :: s[i][j] != Free
    ensures NoThreeInARow(s)
    ensures PairwiseDistinct(s) && PairwiseDistinct(Transpose(s))
  {
    assert s[0] == [1, 0, 1] && s[1] == [0, 0, 1] && s[2] == [0, 1, 0];
    assert WellFormed(s);
    CounterexampleNoRun(s);
    CounterexampleDistinct(s);
    CounterexampleDistinct(Transpose(s));
  }

  lemma CounterexampleNoRun(s: Grid)
    requires IsSquare(s) && |s| == 3
    requires s[0] == [1, 0, 1] && s[1] == [0, 0, 1] && s[2] == [0, 1, 0]
    ensures NoThreeInARow(s)
  {
    assert !HorizontalRun(s, 0, 1) && !HorizontalRun(s, 1, 1) && !HorizontalRun(s, 2, 1);
    assert !VerticalRun(s, 1, 0) && !VerticalRun(s, 1, 1) && !VerticalRun(s, 1, 2);
  }

  /** Three vectors of three cells that differ pairwise. */
  lemma CounterexampleDistinct(vs: seq<seq<int>>)
    requires |vs| == 3 && forall i | 0 <= i < 3 :: |vs[i]| == 3
    requires vs[0][0] != vs[1][0] || vs[0][1] != vs[1][1] || vs[0][2] != vs[1][2]
    requires vs[0][0] != vs[2][0] || vs[0][1] != vs[2][1] || vs[0][2] != vs[2][2]
    requires vs[1][0] != vs[2][0] || vs[1][1] != vs[2][1] || vs[1][2] != vs[2][2]
    ensures PairwiseDistinct(vs)
  {
  }
}
