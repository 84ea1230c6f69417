/** The grid printer of cli/cli.go. Printing is modelled by the text it
    writes: `PrintPaddedStr` and `PrintGrid` return what they would send to
    standard output. Cell lengths are counted in characters. */
module Cli {

  /** The larger of two lengths. */
  function Max(a: int, b: int): int {
    if a < b then b else a
  }

  /** The running maximum of the loop over one row: `x`, raised to the
      length of each cell in turn. */
  function RowMax(row: seq<string>, x: int): int
    decreases |row|
  {
    if row == [] then x else Max(RowMax(row[..|row| - 1], x), |row[|row| - 1]|)
  }

  /** The running maximum of the nested loops over the rows. */
  function GridMax(rows: seq<seq<string>>, x: int): int
    decreases |rows|
  {
    if rows == [] then x else RowMax(rows[|rows| - 1], GridMax(rows[..|rows| - 1], x))
  }

  /** What `longestString` returns: 0 for an empty matrix or an empty first
      row, otherwise the scan started from the first cell's length. */
  function Longest(m: seq<seq<string>>): int {
    if |m| == 0 || |m[0]| == 0 then 0 else GridMax(m, |m[0][0]|)
  }

  /** `longestString`, with its nested loops. */
  method LongestString(matrix: seq<seq<string>>) returns (x: int)
    ensures x == Longest(matrix)
    ensures |matrix| == 0 || |matrix[0]| == 0 ==> x == 0
  {
    if |matrix| == 0 || |matrix[0]| == 0 {
      return 0;
    }
    x := |matrix[0][0]|;
    var i := 0;
    while i < |matrix|
      invariant 0 <= i <= |matrix|
      invariant x == GridMax(matrix[..i], |matrix[0][0]|)
    {
      var v := matrix[i];
      ghost var x0 := x;
      var j := 0;
      while j < |v|
        invariant 0 <= j <= |v|
        invariant x == RowMax(v[..j], x0)
      {
        assert v[..j + 1][..j] == v[..j];
        if |v[j]| > x {
          x := |v[j]|;
        }
        j := j + 1;
      }
      assert v[..j] == v;
      assert matrix[..i + 1][..i] == matrix[..i];
      i := i + 1;
    }
    assert matrix[..i] == matrix;
  }

  /** The row scan ends at least at its start and at every cell's length. */
  lemma {:induction false} RowMaxBounds(row: seq<string>, x: int)
    ensures RowMax(row, x) >= x
    ensures forall k :: 0 <= k < |row| ==> |row[k]| <= RowMax(row, x)
    decreases |row|
  {
    if row != [] {
      var init := row[..|row| - 1];
      RowMaxBounds(init, x);
      forall k | 0 <= k < |row| - 1 ensures |row[k]| <= RowMax(row, x) {
        assert row[k] == init[k];
      }
    }
  }

  /** The row scan ends at its start or at the length of one of the cells. */
  lemma {:induction false} RowMaxAttained(row: seq<string>, x: int)
    ensures RowMax(row, x) == x || exists k :: 0 <= k < |row| && RowMax(row, x) == |row[k]|
    decreases |row|
  {
    if row != [] {
      var init := row[..|row| - 1];
      RowMaxAttained(init, x);
      if RowMax(row, x) != |row[|row| - 1]| && RowMax(init, x) != x {
        var k :| 0 <= k < |init| && RowMax(init, x) == |init[k]|;
        assert row[k] == init[k];
      }
    }
  }

  /** The grid scan ends at least at its start and at every cell's length. */
  lemma {:induction false} GridMaxBounds(rows: seq<seq<string>>, x: int)
    ensures GridMax(rows, x) >= x
    ensures forall i, j :: 0 <= i < |rows| && 0 <= j < |rows[i]| ==> |rows[i][j]| <= GridMax(rows, x)
    decreases |rows|
  {
    if rows != [] {
      var init := rows[..|rows| - 1];
      GridMaxBounds(init, x);
      RowMaxBounds(rows[|rows| - 1], GridMax(init, x));
      forall i, j | 0 <= i < |rows| - 1 && 0 <= j < |rows[i]| ensures |rows[i][j]| <= GridMax(rows, x) {
        assert rows[i] == init[i];
      }
    }
  }

  /** The grid scan ends at its start or at the length of one of the cells. */
  lemma {:induction false} GridMaxAttained(rows: seq<seq<string>>, x: int)
    ensures GridMax(rows, x) == x
      || exists i, j :: 0 <= i < |rows| && 0 <= j < |rows[i]| && GridMax(rows, x) == |rows[i][j]|
    decreases |rows|
  {
    if rows != [] {
      var init, last := rows[..|rows| - 1], rows[|rows| - 1];
      GridMaxAttained(init, x);
      RowMaxAttained(last, GridMax(init, x));
      if GridMax(rows, x) != x {
        if GridMax(rows, x) == GridMax(init, x) {
          var i, j :| 0 <= i < |init| && 0 <= j < |init[i]| && GridMax(init, x) == |init[i][j]|;
          assert rows[i] == init[i];
        } else {
          var j :| 0 <= j < |last| && GridMax(rows, x) == |last[j]|;
          assert rows[|rows| - 1] == last;
        }
      }
    }
  }

  /** With a non-empty first row, `longestString` bounds the length of every
      cell of every row. */
  lemma LongestBounds(m: seq<seq<string>>)
    requires |m| > 0 && |m[0]| > 0
    ensures forall i, j :: 0 <= i < |m| && 0 <= j < |m[i]| ==> |m[i][j]| <= Longest(m)
  {
    GridMaxBounds(m, |m[0][0]|);
  }

  /** With a non-empty first row, `longestString` is the length of some cell. */
  lemma LongestAttained(m: seq<seq<string>>)
    requires |m| > 0 && |m[0]| > 0
    ensures exists i, j :: 0 <= i < |m| && 0 <= j < |m[i]| && Longest(m) == |m[i][j]|
  {
    GridMaxAttained(m, |m[0][0]|);
  }

  /** `n` spaces. */
  function Spaces(n: nat): (r: string)
    ensures |r| == n && forall k :: 0 <= k < n ==> r[k] == ' '
  {
    seq(n, _ => ' ')
  }

  /** The number of spaces `printPaddedStr` writes after `s`: `lm - len(s)`,
      none when that is not positive. */
  function Padding(s: string, lm: int): (n: nat)
    ensures |s| + n == Max(|s|, lm)
    ensures n > 0 <==> |s| < lm
  {
    if lm - |s| > 0 then lm - |s| else 0
  }

  /** The text `printPaddedStr` writes: `s` unchanged followed by spaces
      only, filling exactly `lm` characters when `s` is shorter; a longer `s`
      is written alone. */
  function Pad(s: string, lm: int): (r: string)
    ensures |r| == Max(|s|, lm)
    ensures r[..|s|] == s
    ensures forall k :: |s| <= k < |r| ==> r[k] == ' '
    ensures |s| >= lm ==> r == s
  {
    s + Spaces(Padding(s, lm))
  }

  /** `printPaddedStr`, with its counting loop. */
  method PrintPaddedStr(s: string, lm: int) returns (out: string)
    ensures out == Pad(s, lm)
  {
    var left := lm - |s|;
    out := s;
    var i := 0;
    while i < left
      invariant 0 <= i && (i <= left || i == 0)
      invariant out == s + Spaces(i)
    {
      out := out + " ";
      i := i + 1;
    }
  }

  /** The column width of `PrintGrid`: four more than `longestString`. */
  function ColumnWidth(m: seq<seq<string>>): (w: int)
    ensures w >= 4
    ensures |m| > 0 && |m[0]| > 0 ==>
      forall i, j :: 0 <= i < |m| && 0 <= j < |m[i]| ==> |m[i][j]| + 4 <= w
  {
    if |m| > 0 && |m[0]| > 0 then
      LongestBounds(m);
      Longest(m) + 4
    else
      4
  }

  /** The text of one row's cells, each padded to width `w`. */
  function RowText(row: seq<string>, w: int): string
    decreases |row|
  {
    if row == [] then [] else RowText(row[..|row| - 1], w) + Pad(row[|row| - 1], w)
  }

  /** The text of the rows: two leading spaces, the padded cells and a newline each. */
  function GridText(m: seq<seq<string>>, w: int): string
    decreases |m|
  {
    if m == [] then [] else GridText(m[..|m| - 1], w) + "  " + RowText(m[|m| - 1], w) + "\n"
  }

  /** The inner loop of `PrintGrid`: the cells of one row, each padded to `lmax`. */
  method PrintRow(row: seq<string>, lmax: int) returns (out: string)
    ensures out == RowText(row, lmax)
  {
    out := [];
    var j := 0;
    while j < |row|
      invariant 0 <= j <= |row|
      invariant out == RowText(row[..j], lmax)
    {
      assert row[..j + 1][..j] == row[..j];
      var cell := PrintPaddedStr(row[j], lmax);
      out := out + cell;
      j := j + 1;
    }
    assert row[..j] == row;
  }

  /** `PrintGrid`: every row indented by two spaces, its cells padded to the
      column width, and ended by a newline. */
  method PrintGrid(matrix: seq<seq<string>>) returns (out: string)
    ensures out == GridText(matrix, ColumnWidth(matrix))
  {
    var startSpaces := "  ";
    var longest := LongestString(matrix);
    var lmax := longest + 4;
    out := [];
    var i := 0;
    while i < |matrix|
      invariant 0 <= i <= |matrix|
      invariant out == GridText(matrix[..i], lmax)
    {
      var cells := PrintRow(matrix[i], lmax);
      out := out + startSpaces + cells + "\n";
      assert matrix[..i + 1][..i] == matrix[..i];
      i := i + 1;
    }
    assert matrix[..i] == matrix;
  }

  /** With a non-empty first row, every cell is followed by at least four
      spaces in the grid. */
  lemma CellGap(m: seq<seq<string>>, i: nat, j: nat)
    requires |m| > 0 && |m[0]| > 0
    requires i < |m| && j < |m[i]|
    ensures Padding(m[i][j], ColumnWidth(m)) >= 4
    ensures |Pad(m[i][j], ColumnWidth(m))| == ColumnWidth(m)
  {
    LongestBounds(m);
  }

  /** The row text of two runs of cells is their texts one after the other. */
  lemma {:induction false} RowTextAppend(a: seq<string>, b: seq<string>, w: int)
    ensures RowText(a + b, w) == RowText(a, w) + RowText(b, w)
    decreases |b|
  {
    if b != [] {
      var b' := b[..|b| - 1];
      assert (a + b)[..|a + b| - 1] == a + b';
      RowTextAppend(a, b', w);
    } else {
      assert a + b == a;
    }
  }

  /** With cells no wider than `w`, a row's text has `w` characters per cell. */
  lemma {:induction false} RowTextLength(row: seq<string>, w: int)
    requires forall k :: 0 <= k < |row| ==> |row[k]| <= w
    ensures |RowText(row, w)| == |row| * w
    decreases |row|
  {
    if row != [] {
      var n, init := |row|, row[..|row| - 1];
      assert forall k :: 0 <= k < |init| ==> init[k] == row[k];
      RowTextLength(init, w);
      assert |RowText(row, w)| == (n - 1) * w + w;
      MulSucc(n - 1, w);
    }
  }

  lemma MulSucc(n: int, w: int)
    ensures n * w + w == (n + 1) * w
  {
  }

  /** With a non-empty first row, the text of row `i` is its cells in order,
      cell `k` after exactly `k * ColumnWidth(m)` characters of earlier cells,
      and padded to `ColumnWidth(m)`: the columns line up. */
  lemma GridAligned(m: seq<seq<string>>, i: nat, k: nat)
    requires |m| > 0 && |m[0]| > 0 && i < |m| && k < |m[i]|
    ensures var w, row := ColumnWidth(m), m[i];
      && RowText(row, w) == RowText(row[..k], w) + Pad(row[k], w) + RowText(row[k + 1..], w)
      && |RowText(row[..k], w)| == k * w
      && |Pad(row[k], w)| == w
  {
    var w, row := ColumnWidth(m), m[i];
    LongestBounds(m);
    assert row == row[..k] + [row[k]] + row[k + 1..];
    RowTextAppend(row[..k] + [row[k]], row[k + 1..], w);
    RowTextAppend(row[..k], [row[k]], w);
    assert RowText([row[k]], w) == Pad(row[k], w) by {
      assert [row[k]][..0] == [];
    }
    assert forall j :: 0 <= j < k ==> row[..k][j] == row[j];
    RowTextLength(row[..k], w);
    CellGap(m, i, k);
  }

  /** When the first row is empty the width is 4 whatever the later rows
      hold, so a later cell of four or more characters gets no gap. */
  lemma EmptyFirstRowWidth(m: seq<seq<string>>, i: nat, j: nat)
    requires |m| > 0 && |m[0]| == 0
    requires i < |m| && j < |m[i]| && |m[i][j]| >= 4
    ensures ColumnWidth(m) == 4 && Pad(m[i][j], ColumnWidth(m)) == m[i][j]
  {
    assert Padding(m[i][j], 4) == 0;
  }
}
