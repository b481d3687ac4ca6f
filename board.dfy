/**
 * The Board class: an N×N array of cells that place_number and
 * is_valid_play overwrite in place. Its read-only queries are the functions
 * of module Grids applied to Contents(), the board's current value.
 */
module Boards {
  import opened Grids
  import BoardText

  class Board {
    const dimension: nat
    const cells: array2<int>

    /** Square, of side `dimension`, every cell 0, 1 or free. */
    ghost predicate Valid()
      reads cells
    {
      cells.Length0 == dimension && cells.Length1 == dimension &&
      forall i, j | 0 <= i < dimension && 0 <= j < dimension :: 0 <= cells[i, j] <= 2
    }

    /** The board's cells as a grid value. */
    function Contents(): (g: Grid)
      reads cells
      ensures |g| == cells.Length0
      ensures forall i | 0 <= i < |g| :: |g[i]| == cells.Length1
      ensures forall i, j | 0 <= i < cells.Length0 && 0 <= j < cells.Length1 :: g[i][j] == cells[i, j]
      ensures Valid() ==> WellFormed(g) && |g| == dimension
    {
      seq(cells.Length0, i requires 0 <= i < cells.Length0 reads cells =>
        seq(cells.Length1, j requires 0 <= j < cells.Length1 reads cells => cells[i, j]))
    }

    /** Board(board): a board holding a copy of the given rows. */
    constructor (g: Grid)
      requires WellFormed(g)
      ensures Valid() && fresh(cells)
      ensures dimension == |g| && Contents() == g
    {
      dimension := |g|;
      cells := new int[|g|, |g|]((i, j) requires 0 <= i < |g| && 0 <= j < |g| => g[i][j]);
      new;
      assert Contents() == g by {
        forall i | 0 <= i < |g| ensures Contents()[i] == g[i] {
        }
      }
    }

    /** copy: a fresh board with the same cells, sharing nothing. */
    method Copy() returns (b: Board)
      requires Valid()
      ensures fresh(b) && fresh(b.cells) && b.Valid()
      ensures b.dimension == dimension && b.Contents() == Contents()
    {
      b := new Board(Contents());
    }

    /** get_number */
    function GetNumber(row: nat, col: nat): (v: int)
      reads cells
      requires Valid() && row < dimension && col < dimension
      ensures 0 <= v <= 2 && v == Contents()[row][col]
    {
      cells[row, col]
    }

    /** get_row: the cells of row i. */
    function GetRow(i: nat): (r: seq<int>)
      reads cells
      requires Valid() && i < dimension
      ensures |r| == dimension && r == Contents()[i]
    {
      Contents()[i]
    }

    /** get_col: the cells of column j, top to bottom. */
    function GetCol(j: nat): (c: seq<int>)
      reads cells
      requires Valid() && j < dimension
      ensures |c| == dimension && c == Col(Contents(), j) && c == Transpose(Contents())[j]
    {
      Col(Contents(), j)
    }

    /** place_number: overwrite one cell, leave every other cell as it was. */
    method PlaceNumber(row: nat, col: nat, number: int)
      requires Valid() && row < dimension && col < dimension && 0 <= number <= 2
      modifies cells
      ensures Valid()
      ensures Contents() == Place(old(Contents()), row, col, number)
    {
      cells[row, col] := number;
      assert Contents() == Place(old(Contents()), row, col, number) by {
        var g := Place(old(Contents()), row, col, number);
        forall i | 0 <= i < dimension ensures Contents()[i] == g[i] {
        }
      }
    }

    /** free_positions: the free cells, scanned row by row. */
    method FreePositions() returns (positions: seq<(nat, nat)>)
      requires Valid()
      ensures positions == Grids.FreePositions(Contents())
    {
      ghost var g := Contents();
      positions := [];
      for i := 0 to dimension
        invariant positions == FreeInRows(g, i)
      {
        for j := 0 to dimension
          invariant positions == FreeInRows(g, i) + FreeInRow(g, i, j)
        {
          if GetNumber(i, j) == Free {
            positions := positions + [(i, j)];
          }
        }
      }
    }

    /** __str__: digits separated by tabs, rows separated by newlines. */
    method ToString() returns (s: string)
      requires Valid()
      ensures s == BoardText.Text(Contents())
    {
      ghost var g := Contents();
      s := "";
      for i := 0 to dimension
        invariant s == BoardText.GridText(g, i)
      {
        var line := RowString(i);
        var separator := if i != dimension - 1 then "\n" else "";
        s := s + line + separator;
      }
    }

    /** The digits of row i separated by tabs. */
    method RowString(i: nat) returns (s: string)
      requires Valid() && i < dimension
      ensures CellValues(Contents()[i])
      ensures s == BoardText.RowText(Contents()[i], dimension)
    {
      ghost var r := Contents()[i];
      s := "";
      for j := 0 to dimension
        invariant s == BoardText.RowText(r, j)
      {
        var digit := [BoardText.Digit(GetNumber(i, j))];
        var separator := if j != dimension - 1 then "\t" else "";
        s := s + digit + separator;
      }
    }

    /**
     * is_valid_play: place the number (the placement stays, whatever the
     * verdict), then check the partial counts of its row and column, the
     * two pairs of neighbours, and the uniqueness of rows and columns.
     */
    method IsValidPlay(play: Play) returns (ok: bool)
      requires Valid() && play.row < dimension && play.col < dimension
      requires 0 <= play.number <= 2
      modifies cells
      ensures Valid()
      ensures Contents() == Place(old(Contents()), play.row, play.col, play.number)
      ensures ok == PlayAcceptable(Contents(), play)
    {
      var row, col, number := play.row, play.col, play.number;
      PlaceNumber(row, col, number);
      var g := Contents();

      var zerosR := Count(g[row], 0);
      var onesR := Count(g[row], 1);
      var zerosC := Count(Col(g, col), 0);
      var onesC := Count(Col(g, col), 1);

      if dimension % 2 == 0 {
        if 2 * zerosR > dimension || 2 * onesR > dimension ||
           2 * zerosC > dimension || 2 * onesC > dimension {
          return false;
        }
      } else {
        if zerosR > dimension / 2 + 1 || onesR > dimension / 2 + 1 ||
           zerosC > dimension / 2 + 1 || onesC > dimension / 2 + 1 {
          return false;
        }
      }

      if Occurrences(AdjacentVertical(g, row, col), number) >= 2 ||
         Occurrences(AdjacentHorizontal(g, row, col), number) >= 2 {
        return false;
      }

      return UniquenessRule(g);
    }
  }
}
