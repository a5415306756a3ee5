/** The tic-tac-toe board of TicTacToe/lib/grid.rb: a 3x3 array of marks,
    '-' for an empty cell, with guarded placement and winner detection over
    the eight lines (three rows, three columns, two diagonals). */
module TicTacToe {

  const EMPTY_CELL: char := '-'
  const SIZE: int := 3

  datatype Option<T> = None | Some(value: T)

  /** A snapshot of the cells, row by row. */
  type Cells = seq<seq<char>>

  predicate IsGrid(g: Cells)
  {
    |g| == SIZE && forall r :: 0 <= r < |g| ==> |g[r]| == SIZE
  }

  predicate InRange(row: int, col: int)
  {
    0 <= row < SIZE && 0 <= col < SIZE
  }

  /** create_empty_grid: three rows of three empty cells. */
  function EmptyGrid(): (g: Cells)
    ensures IsGrid(g)
    ensures forall r, c :: InRange(r, c) ==> g[r][c] == EMPTY_CELL
  {
    [[EMPTY_CELL, EMPTY_CELL, EMPTY_CELL],
     [EMPTY_CELL, EMPTY_CELL, EMPTY_CELL],
     [EMPTY_CELL, EMPTY_CELL, EMPTY_CELL]]
  }

  /** valid_placement?: row and column in 0..2 and the cell still empty. */
  predicate ValidPlacement(g: Cells, row: int, col: int)
    requires IsGrid(g)
  {
    InRange(row, col) && g[row][col] == EMPTY_CELL
  }

  /** horizontal_lines + vertical_lines (the transpose) + diagonal_lines. */
  function AllLines(g: Cells): (lines: seq<seq<char>>)
    requires IsGrid(g)
    ensures |lines| == 8
    ensures forall k :: 0 <= k < 8 ==> |lines[k]| == SIZE
    ensures forall r, c :: InRange(r, c) ==> lines[r][c] == g[r][c] && lines[SIZE + c][r] == g[r][c]
    ensures forall i :: 0 <= i < SIZE ==> lines[6][i] == g[i][i] && lines[7][i] == g[i][SIZE - 1 - i]
  {
    var vertical := seq(SIZE, c requires 0 <= c < SIZE => seq(SIZE, r requires 0 <= r < SIZE => g[r][c]));
    var diagonal := [seq(SIZE, i requires 0 <= i < SIZE => g[i][i]),
                     seq(SIZE, i requires 0 <= i < SIZE => g[i][SIZE - 1 - i])];
    g + vertical + diagonal
  }

  /** Array#uniq: the distinct elements, each at its first occurrence. */
  function Uniq(s: seq<char>): (u: seq<char>)
    ensures forall x :: x in u <==> x in s
    ensures forall i, j :: 0 <= i < j < |u| ==> u[i] != u[j]
  {
    if s == [] then []
    else
      var u := Uniq(s[..|s| - 1]);
      if s[|s| - 1] in u then u else u + [s[|s| - 1]]
  }

  /** winning_line?: exactly one distinct mark, and it is not the empty mark. */
  predicate WinningLine(line: seq<char>)
  {
    |Uniq(line)| == 1 && line != [] && line[0] != EMPTY_CELL
  }

  /** A line has one distinct mark exactly when it is non-empty and all its
      marks equal the first. */
  lemma UniqSingleton(s: seq<char>)
    ensures |Uniq(s)| == 1 <==> s != [] && forall i :: 0 <= i < |s| ==> s[i] == s[0]
  {
    var u := Uniq(s);
    if |u| == 1 {
      assert s != [] by {
        assert u[0] in s;
      }
      forall i | 0 <= i < |s| ensures s[i] == s[0] {
        assert s[i] in u && s[0] in u;
      }
    }
    if s != [] && forall i :: 0 <= i < |s| ==> s[i] == s[0] {
      assert s[0] in u;
      assert forall x :: x in u ==> x == s[0];
    }
  }

  /** The mark of the first winning line of `lines`, or None. */
  function FirstWinner(lines: seq<seq<char>>): (r: Option<char>)
    ensures r.None? <==> forall k :: 0 <= k < |lines| ==> !WinningLine(lines[k])
    ensures r.Some? ==> exists k :: 0 <= k < |lines| && WinningLine(lines[k]) && lines[k][0] == r.value
                                     && forall j :: 0 <= j < k ==> !WinningLine(lines[j])
  {
    if lines == [] then None
    else if WinningLine(lines[0]) then Some(lines[0][0])
    else
      var rest := FirstWinner(lines[1..]);
      assert forall k :: 1 <= k < |lines| ==> lines[k] == lines[1..][k - 1];
      rest
  }

  /** has_winner?: the mark on the first winning line, or nil. */
  function Winner(g: Cells): (r: Option<char>)
    requires IsGrid(g)
    ensures r.Some? ==> r.value != EMPTY_CELL
  {
    FirstWinner(AllLines(g))
  }

  /** A new grid has no winner. */
  lemma EmptyGridHasNoWinner()
    ensures Winner(EmptyGrid()) == None
  {
    var lines := AllLines(EmptyGrid());
    forall k | 0 <= k < 8 ensures !WinningLine(lines[k]) {
      assert lines[k][0] == EMPTY_CELL;
    }
  }

  /** Line k of the grid is full of mark s. */
  predicate LineFull(g: Cells, k: nat, s: char)
    requires IsGrid(g) && k < 8
  {
    forall i :: 0 <= i < SIZE ==> AllLines(g)[k][i] == s
  }

  /** A winner owns a whole line: a row, a column or a diagonal full of its mark. */
  lemma WinnerOwnsALine(g: Cells, s: char)
    requires IsGrid(g) && Winner(g) == Some(s)
    ensures s != EMPTY_CELL
    ensures exists k: nat :: k < 8 && LineFull(g, k, s)
  {
    var lines := AllLines(g);
    var k :| 0 <= k < 8 && WinningLine(lines[k]) && lines[k][0] == s;
    UniqSingleton(lines[k]);
    assert LineFull(g, k, s);
  }

  /** Conversely, a row, column or diagonal full of one non-empty mark means there is a winner. */
  lemma FullLineWins(g: Cells, s: char, k: nat)
    requires IsGrid(g) && s != EMPTY_CELL && k < 8
    requires LineFull(g, k, s)
    ensures Winner(g).Some?
  {
    var line := AllLines(g)[k];
    UniqSingleton(line);
    assert WinningLine(line);
  }

  /** Lines are tried in order: rows, then columns, then diagonals. When the
      top row and the left column are both full, with different marks, the
      top row's mark is reported. */
  lemma RowsAreTriedFirst(g: Cells)
    requires IsGrid(g)
    requires forall c :: 0 <= c < SIZE ==> g[0][c] == 'X'
    requires forall r :: 1 <= r < SIZE ==> g[r][0] == 'O'
    ensures Winner(g) == Some('X')
  {
    var lines := AllLines(g);
    UniqSingleton(lines[0]);
    assert WinningLine(lines[0]);
    assert FirstWinner(lines) == Some(lines[0][0]);
  }

  /** The grid object: `cells` is updated in place by PlaceMark. */
  class Grid {
    var cells: array2<char>

    ghost predicate Valid()
      reads this
    {
      cells.Length0 == SIZE && cells.Length1 == SIZE
    }

    /** The cells as a value, row by row. */
    function Snapshot(): (g: Cells)
      reads this, cells
      requires Valid()
      ensures IsGrid(g)
      ensures forall r, c :: InRange(r, c) ==> g[r][c] == cells[r, c]
    {
      [[cells[0, 0], cells[0, 1], cells[0, 2]],
       [cells[1, 0], cells[1, 1], cells[1, 2]],
       [cells[2, 0], cells[2, 1], cells[2, 2]]]
    }

    /** initialize: every cell empty. */
    constructor ()
      ensures Valid() && fresh(cells)
      ensures Snapshot() == EmptyGrid()
    {
      cells := new char[SIZE, SIZE]((r, c) => EMPTY_CELL);
    }

    /** cell_empty?: the cell holds '-'. */
    function CellEmpty(row: int, col: int): (r: bool)
      reads this, cells
      requires Valid() && InRange(row, col)
      ensures r <==> Snapshot()[row][col] == EMPTY_CELL
    {
      cells[row, col] == EMPTY_CELL
    }

    /** place_mark: refuses a position off the board or an occupied cell and
        changes nothing; otherwise writes `symbol` into exactly that cell. */
    method PlaceMark(symbol: char, row: int, col: int) returns (ok: bool)
      requires Valid()
      modifies cells
      ensures Valid()
      ensures ok <==> ValidPlacement(old(Snapshot()), row, col)
      ensures ok ==> Snapshot() == old(Snapshot())[row := old(Snapshot())[row][col := symbol]]
      ensures !ok ==> Snapshot() == old(Snapshot())
      ensures forall r, c :: InRange(r, c) && old(cells[r, c]) != EMPTY_CELL ==> cells[r, c] == old(cells[r, c])
    {
      if !(InRange(row, col) && CellEmpty(row, col)) {
        return false;
      }
      ghost var before := Snapshot();
      cells[row, col] := symbol;
      ghost var expected := before[row := before[row][col := symbol]];
      forall r | 0 <= r < SIZE ensures Snapshot()[r] == expected[r] {
        assert forall c :: 0 <= c < SIZE ==> Snapshot()[r][c] == expected[r][c];
      }
      return true;
    }
  }
}
