/**
 * The text form of a board (Board.__str__): the cells of each row as digits
 * separated by tabs, the rows separated by newlines, no trailing separator.
 * Reading that text back, field by field, recovers the board.
 */
module BoardText {
  import opened Grids

  /** The character str() gives for a cell value. */
  function Digit(v: int): char
    requires 0 <= v <= 2
  {
    (('0' as int) + v) as char
  }

  /** The text of the first j cells of row r: each digit is followed by a
      tab unless it is the row's last cell. */
  function RowText(r: seq<int>, j: nat): string
    requires j <= |r| && CellValues(r)
  {
    if j == 0 then ""
    else RowText(r, j - 1) + [Digit(r[j - 1])] + (if j - 1 != |r| - 1 then "\t" else "")
  }

  /** The text of the first i rows: each row is followed by a newline unless
      it is the last row. */
  function GridText(g: Grid, i: nat): string
    requires WellFormed(g) && i <= |g|
  {
    if i == 0 then ""
    else GridText(g, i - 1) + RowText(g[i - 1], |g|) + (if i - 1 != |g| - 1 then "\n" else "")
  }

  /** The whole text of a board. */
  function Text(g: Grid): string
    requires WellFormed(g)
  {
    GridText(g, |g|)
  }

  // ---------------------------------------------------------------------
  // Reading the text back
  // ---------------------------------------------------------------------

  /** The pieces of s between occurrences of sep (str.split). */
  function Split(s: string, sep: char): (parts: seq<string>)
    ensures |parts| >= 1
  {
    if s == [] then [[]]
    else
      var rest := Split(s[1..], sep);
      if s[0] == sep then [[]] + rest else [[s[0]] + rest[0]] + rest[1..]
  }

  predicate IsDigits(f: string) {
    |f| > 0 && forall k | 0 <= k < |f| :: '0' <= f[k] <= '9'
  }

  /** The number a string of decimal digits denotes. */
  function DecimalValue(f: string): nat
    requires forall k | 0 <= k < |f| :: '0' <= f[k] <= '9'
  {
    if f == [] then 0
    else DecimalValue(f[..|f| - 1]) * 10 + (f[|f| - 1] as int - '0' as int)
  }

  /** The numbers of a row's fields; None if a field is not a number. */
  function ParseFields(fields: seq<string>): Option<seq<int>>
  {
    if fields == [] then Some([])
    else if !IsDigits(fields[0]) then None
    else match ParseFields(fields[1..])
      case None => None
      case Some(rest) => Some([DecimalValue(fields[0]) as int] + rest)
  }

  /** The rows of a sequence of lines; None if a field is not a number. */
  function ParseLines(lines: seq<string>): Option<Grid>
  {
    if lines == [] then Some([])
    else match ParseLines(lines[..|lines| - 1])
      case None => None
      case Some(rows) =>
        match ParseFields(Split(lines[|lines| - 1], '\t'))
        case None => None
        case Some(row) => Some(rows + [row])
  }

  /** Reads a board's rows from its text form. */
  function ParseRows(s: string): Option<Grid>
  {
    ParseLines(Split(s, '\n'))
  }

  // ---------------------------------------------------------------------
  // Round trip
  // ---------------------------------------------------------------------

  lemma {:induction false} SplitWithout(a: string, sep: char)
    requires sep !in a
    ensures Split(a, sep) == [a]
  {
    if a != [] {
      SplitWithout(a[1..], sep);
      assert [a[0]] + a[1..] == a;
    }
  }

  lemma {:induction false} SplitAt(a: string, b: string, sep: char)
    requires sep !in a
    ensures Split(a + [sep] + b, sep) == [a] + Split(b, sep)
  {
    var s := a + [sep] + b;
    if a == [] {
      assert s[1..] == b;
    } else {
      SplitAt(a[1..], b, sep);
      assert s[1..] == a[1..] + [sep] + b;
      assert [a[0]] + a[1..] == a;
    }
  }

  /** The fields of a row's text. */
  function Fields(r: seq<int>): seq<string>
    requires CellValues(r)
  {
    seq(|r|, k requires 0 <= k < |r| => [Digit(r[k])])
  }

  lemma {:induction false} RowTextChars(r: seq<int>, j: nat)
    requires j <= |r| && CellValues(r)
    ensures forall k | 0 <= k < |RowText(r, j)| :: RowText(r, j)[k] == '\t' || '0' <= RowText(r, j)[k] <= '2'
  {
    if j > 0 {
      RowTextChars(r, j - 1);
    }
  }

  lemma RowTextStep(r: seq<int>, j: nat)
    requires 0 < j <= |r| && CellValues(r)
    ensures RowText(r, j) ==
              RowText(r, j - 1) + [Digit(r[j - 1])] + (if j < |r| then ['\t'] else [])
  {
  }

  lemma {:induction false} RowTextSplitPrefix(r: seq<int>, j: nat, t: string)
    requires j < |r| && CellValues(r)
    ensures Split(RowText(r, j) + t, '\t') == Fields(r)[..j] + Split(t, '\t')
  {
    if j == 0 {
      assert RowText(r, j) + t == t;
    } else {
      var d := [Digit(r[j - 1])];
      var u := d + ['\t'] + t;
      var a := RowText(r, j - 1);
      RowTextStep(r, j);
      Associative(a, d, ['\t']);
      Associative(a, d + ['\t'], t);
      RowTextSplitPrefix(r, j - 1, u);
      SplitAt(d, t, '\t');
      Associative(Fields(r)[..j - 1], [d], Split(t, '\t'));
      FieldsSnoc(r, j);
    }
  }

  lemma Associative<T>(a: seq<T>, b: seq<T>, c: seq<T>)
    ensures a + (b + c) == a + b + c
  {
  }

  lemma FieldsSnoc(r: seq<int>, j: nat)
    requires 0 < j <= |r| && CellValues(r)
    ensures Fields(r)[..j - 1] + [[Digit(r[j - 1])]] == Fields(r)[..j]
  {
  }

  lemma {:induction false} RowTextSplit(r: seq<int>)
    requires |r| > 0 && CellValues(r)
    ensures Split(RowText(r, |r|), '\t') == Fields(r)
  {
    var n := |r|;
    var d := [Digit(r[n - 1])];
    var a := RowText(r, n - 1);
    var x := RowText(r, n);
    var p := Fields(r)[..n - 1];
    assert x == a + d by { RowTextStep(r, n); }
    assert Split(a + d, '\t') == p + Split(d, '\t') by {
      RowTextSplitPrefix(r, n - 1, d);
    }
    assert Split(d, '\t') == [d] by { SplitWithout(d, '\t'); }
    assert p + [d] == Fields(r);
    assert Split(x, '\t') == p + [d];
  }

  /** The texts of the first i rows of g, one per row. */
  function Lines(g: Grid, i: nat): (ls: seq<string>)
    requires WellFormed(g) && i <= |g|
    ensures |ls| == i
  {
    if i == 0 then [] else Lines(g, i - 1) + [RowText(g[i - 1], |g|)]
  }

  lemma NoNewlineInRow(r: seq<int>)
    requires CellValues(r)
    ensures '\n' !in RowText(r, |r|)
  {
    RowTextChars(r, |r|);
  }

  lemma {:induction false} GridTextSplitPrefix(g: Grid, i: nat, t: string)
    requires WellFormed(g) && i < |g|
    ensures Split(GridText(g, i) + t, '\n') == Lines(g, i) + Split(t, '\n')
  {
    if i == 0 {
      assert GridText(g, i) + t == t;
    } else {
      var line := RowText(g[i - 1], |g|);
      var u := line + ['\n'] + t;
      var a := GridText(g, i - 1);
      assert GridText(g, i) == a + line + ['\n'];
      Associative(a, line, ['\n']);
      Associative(a, line + ['\n'], t);
      GridTextSplitPrefix(g, i - 1, u);
      NoNewlineInRow(g[i - 1]);
      SplitAt(line, t, '\n');
      Associative(Lines(g, i - 1), [line], Split(t, '\n'));
    }
  }

  lemma {:induction false} GridTextSplit(g: Grid)
    requires WellFormed(g) && |g| > 0
    ensures Split(Text(g), '\n') == Lines(g, |g|)
  {
    var n := |g|;
    var line := RowText(g[n - 1], n);
    var a := GridText(g, n - 1);
    var x := Text(g);
    var p := Lines(g, n - 1);
    assert x == a + line;
    assert Split(a + line, '\n') == p + Split(line, '\n') by {
      GridTextSplitPrefix(g, n - 1, line);
    }
    assert Split(line, '\n') == [line] by {
      NoNewlineInRow(g[n - 1]);
      SplitWithout(line, '\n');
    }
    assert Split(x, '\n') == p + [line];
  }

  lemma {:induction false} ParseFieldsOfDigits(r: seq<int>)
    requires CellValues(r)
    ensures ParseFields(Fields(r)) == Some(r)
  {
    if r != [] {
      ParseFieldsOfDigits(r[1..]);
      assert Fields(r)[1..] == Fields(r[1..]);
      var f := [Digit(r[0])];
      assert f[..0] == [];
      assert DecimalValue(f) == r[0];
      assert [r[0]] + r[1..] == r;
    }
  }

  lemma {:induction false} ParseLinesOfRows(g: Grid, i: nat)
    requires WellFormed(g) && 0 < |g| && i <= |g|
    ensures ParseLines(Lines(g, i)) == Some(g[..i])
  {
    if i > 0 {
      ParseLinesOfRows(g, i - 1);
      assert Lines(g, i)[..i - 1] == Lines(g, i - 1);
      RowTextSplit(g[i - 1]);
      ParseFieldsOfDigits(g[i - 1]);
      assert g[..i] == g[..i - 1] + [g[i - 1]];
    }
  }

  /** Reading back the text of a board gives the board again. */
  lemma TextRoundTrip(g: Grid)
    requires WellFormed(g) && |g| > 0
    ensures ParseRows(Text(g)) == Some(g)
  {
    GridTextSplit(g);
    ParseLinesOfRows(g, |g|);
    assert g[..|g|] == g;
  }

  /** The text has one digit and one separator per cell, less the final
      separator. */
  lemma {:induction false} TextLength(g: Grid, i: nat)
    requires WellFormed(g) && i <= |g|
    ensures |GridText(g, i)| == if i == |g| && i > 0 then 2 * |g| * i - 1 else 2 * |g| * i
  {
    if i > 0 {
      var n := |g|;
      TextLength(g, i - 1);
      RowLength(g[i - 1], n);
      assert |GridText(g, i)| ==
             |GridText(g, i - 1)| + (2 * n - 1) + (if i - 1 != n - 1 then 1 else 0);
      assert 2 * n * i == 2 * n * (i - 1) + 2 * n;
    }
  }

  lemma {:induction false} RowLength(r: seq<int>, j: nat)
    requires j <= |r| && CellValues(r)
    ensures |RowText(r, j)| == if j == |r| && j > 0 then 2 * j - 1 else 2 * j
  {
    if j > 0 {
      RowLength(r, j - 1);
    }
  }
}
