/** What the grid-reading loop of `Pizza.__init__` (pizza.py) computes, as
    functions of the lines that follow the header: the string helpers it
    calls (`rstrip('\n')`, `count`) and the tomato and mushroom positions
    it collects, with their properties. */
module Scan {
  import opened Positions

  /** `s.rstrip('\n')`: drops every trailing newline. */
  function RStripNewlines(s: string): (t: string)
    ensures t <= s
    ensures |t| > 0 ==> t[|t| - 1] != '\n'
    ensures forall k :: |t| <= k < |s| ==> s[k] == '\n'
  {
    if |s| > 0 && s[|s| - 1] == '\n' then RStripNewlines(s[..|s| - 1]) else s
  }

  /** `s.count(c)` for a one-character `c`. */
  function Occurrences(s: string, c: char): (n: nat)
    ensures n <= |s|
    ensures n == 0 <==> c !in s
  {
    if s == [] then 0
    else
      assert c in s <==> c in s[..|s| - 1] || s[|s| - 1] == c by {
        assert s == s[..|s| - 1] + [s[|s| - 1]];
      }
      Occurrences(s[..|s| - 1], c) + (if s[|s| - 1] == c then 1 else 0)
  }

  /** Number of characters of `s` that are neither 'T' nor 'M'. */
  function Others(s: string): nat {
    if s == [] then 0
    else Others(s[..|s| - 1]) + (if s[|s| - 1] in "TM" then 0 else 1)
  }

  /** The grid line `lines[r]` as the loop reads it. */
  function Row(lines: seq<string>, r: nat): string
    requires r < |lines|
  {
    RStripNewlines(lines[r])
  }

  /** Sum of `Row(..).count(c)` over all lines. */
  function TotalOccurrences(lines: seq<string>, c: char): nat {
    if lines == [] then 0
    else TotalOccurrences(lines[..|lines| - 1], c) + Occurrences(Row(lines, |lines| - 1), c)
  }

  /** Sum of the lengths of the rows. */
  function TotalLength(lines: seq<string>): nat {
    if lines == [] then 0
    else TotalLength(lines[..|lines| - 1]) + |Row(lines, |lines| - 1)|
  }

  /** Whether the character at a cell is filed as a tomato ('T') or, for
      any other character, as a mushroom. */
  predicate IsTomato(ch: char) { ch == 'T' }

  /** The positions of row `r` whose character is filed under `tomato`
      (true: tomatoes, false: mushrooms), left to right. */
  function RowCells(line: string, r: int, tomato: bool): seq<Position> {
    if line == [] then []
    else
      RowCells(line[..|line| - 1], r, tomato) +
      (if IsTomato(line[|line| - 1]) == tomato then [Position(r, |line| - 1)] else [])
  }

  /** The positions of the whole grid filed under `tomato`, row by row. */
  function GridCells(lines: seq<string>, tomato: bool): seq<Position> {
    if lines == [] then []
    else GridCells(lines[..|lines| - 1], tomato) + RowCells(Row(lines, |lines| - 1), |lines| - 1, tomato)
  }

  /** `p` comes strictly before `q` in row-major order. */
  predicate Before(p: Position, q: Position) {
    p.row < q.row || (p.row == q.row && p.column < q.column)
  }

  /** The positions are strictly increasing in row-major order (and so
      pairwise distinct). */
  predicate RowMajor(ps: seq<Position>) {
    forall x, y :: 0 <= x < y < |ps| ==> Before(ps[x], ps[y])
  }

  /** A row's cells: a position is listed exactly when it lies on row `r`
      inside the line and its character is filed under `tomato`; they are
      listed left to right, one per such character. */
  lemma {:induction false} RowCellsSpec(line: string, r: int, tomato: bool)
    ensures forall q :: q in RowCells(line, r, tomato) <==>
      q.row == r && 0 <= q.column < |line| && IsTomato(line[q.column]) == tomato
    ensures RowMajor(RowCells(line, r, tomato))
    ensures tomato ==> |RowCells(line, r, tomato)| == Occurrences(line, 'T')
    ensures !tomato ==> |RowCells(line, r, tomato)| == Occurrences(line, 'M') + Others(line)
  {
    if line != [] {
      var init := line[..|line| - 1];
      RowCellsSpec(init, r, tomato);
      forall q | q in RowCells(init, r, tomato) ensures q.column < |init| && init[q.column] == line[q.column] {
      }
    }
  }

  /** Every position of the grid's cells lies on a line: its row is the
      line's index and its column indexes that row. */
  lemma {:induction false} GridCellsSpec(lines: seq<string>, tomato: bool)
    ensures forall q :: q in GridCells(lines, tomato) <==>
      0 <= q.row < |lines| && 0 <= q.column < |Row(lines, q.row)| &&
      IsTomato(Row(lines, q.row)[q.column]) == tomato
    ensures RowMajor(GridCells(lines, tomato))
  {
    if lines != [] {
      var n := |lines| - 1;
      var init := lines[..n];
      GridCellsSpec(init, tomato);
      RowCellsSpec(Row(lines, n), n, tomato);
      assert forall r :: 0 <= r < n ==> Row(init, r) == Row(lines, r);
      var prev, last := GridCells(init, tomato), RowCells(Row(lines, n), n, tomato);
      forall x, y | 0 <= x < y < |prev + last| ensures Before((prev + last)[x], (prev + last)[y]) {
        if y >= |prev| && x < |prev| {
          assert prev[x] in prev && last[y - |prev|] in last;
        }
      }
    }
  }

  /** Each character of the grid yields exactly one position: the tomato
      positions number the 'T' characters, and the tomato and mushroom
      positions together number all characters. */
  lemma {:induction false} GridCellsCount(lines: seq<string>)
    ensures |GridCells(lines, true)| == TotalOccurrences(lines, 'T')
    ensures |GridCells(lines, true)| + |GridCells(lines, false)| == TotalLength(lines)
    ensures |GridCells(lines, false)| >= TotalOccurrences(lines, 'M')
  {
    if lines != [] {
      var row := Row(lines, |lines| - 1);
      GridCellsCount(lines[..|lines| - 1]);
      RowCellsSpec(row, |lines| - 1, true);
      RowCellsSpec(row, |lines| - 1, false);
      PartitionOfRow(row);
    }
  }

  /** An ingredient's position list is non-empty exactly when some
      character of the grid is filed under it. */
  lemma GridCellsNonEmpty(lines: seq<string>, tomato: bool)
    ensures GridCells(lines, tomato) != [] <==>
      exists r, k :: 0 <= r < |lines| && 0 <= k < |Row(lines, r)| && IsTomato(Row(lines, r)[k]) == tomato
  {
    GridCellsSpec(lines, tomato);
    var cells := GridCells(lines, tomato);
    if cells != [] {
      var q := cells[0];
      assert q in cells;
      assert 0 <= q.row < |lines| && 0 <= q.column < |Row(lines, q.row)| &&
        IsTomato(Row(lines, q.row)[q.column]) == tomato;
    }
    forall r, k | 0 <= r < |lines| && 0 <= k < |Row(lines, r)| && IsTomato(Row(lines, r)[k]) == tomato
      ensures Position(r, k) in cells
    {
    }
  }

  /** A grid of mushrooms only yields no tomato position at all. */
  lemma NoTomatoesInAllMushroomGrid()
    ensures GridCells(["M"], true) == []
    ensures GridCells(["M"], false) == [Position(0, 0)]
  {
  }

  /** The characters of a row are 'T', 'M' or other. */
  lemma {:induction false} PartitionOfRow(s: string)
    ensures Occurrences(s, 'T') + Occurrences(s, 'M') + Others(s) == |s|
  {
    if s != [] {
      PartitionOfRow(s[..|s| - 1]);
    }
  }

  /** A row has no character other than 'T' and 'M' exactly when its
      other-character count is 0. */
  lemma {:induction false} OthersZero(s: string)
    ensures Others(s) == 0 <==> forall k :: 0 <= k < |s| ==> s[k] in "TM"
  {
    if s != [] {
      var init := s[..|s| - 1];
      OthersZero(init);
      if forall k :: 0 <= k < |s| ==> s[k] in "TM" {
        assert forall k :: 0 <= k < |init| ==> init[k] == s[k];
      }
    }
  }

  /** Every row consists of 'T' and 'M' characters only. */
  predicate WellFormed(lines: seq<string>) {
    forall r, k :: 0 <= r < |lines| && 0 <= k < |Row(lines, r)| ==> Row(lines, r)[k] in "TM"
  }

  /** The mushroom count (`count('M')`) agrees with the number of mushroom
      positions (every non-'T' character) exactly when the grid holds only
      'T' and 'M'. */
  lemma {:induction false} MushroomCountAgrees(lines: seq<string>)
    ensures TotalOccurrences(lines, 'M') == |GridCells(lines, false)| <==> WellFormed(lines)
  {
    if lines != [] {
      var n := |lines| - 1;
      var init := lines[..n];
      var row := Row(lines, n);
      MushroomCountAgrees(init);
      GridCellsCount(init);
      RowCellsSpec(row, n, false);
      OthersZero(row);
      assert forall r :: 0 <= r < n ==> Row(init, r) == Row(lines, r);
      if WellFormed(lines) {
        assert WellFormed(init);
      } else if WellFormed(init) && Others(row) == 0 {
        assert WellFormed(lines);
      }
    }
  }
}
