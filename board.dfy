/** The MasterMind board of MasterMind/lib/board.rb: 12 rows of four guess
    holes and one cell of four key-peg slots. Rows are filled from the bottom
    (row 11) up; `rowPointer` is the row the next guess goes into. */
module Boards {
  import opened Colors
  import opened Words
  import opened Codemakers

  const ROWS: int := 12
  const COLUMNS: int := 5
  /** The column holding the key-peg slots. */
  const PEG_COLUMN: int := 4
  const SLOTS: int := 4

  const HOLE: string := "●"
  const EMPTY_SLOT: string := " "
  /** A red key peg: an 'o' in red, then the reset code. */
  const RED_PEG: string := RED_CODE + "o" + RESET
  /** A white key peg: an 'o' after the reset code, then the reset code. */
  const WHITE_PEG: string := RESET + "o" + RESET

  /** A cell is a guess hole (a string) or the array of peg slots. */
  datatype Cell = Hole(text: string) | Slots(slots: seq<string>)

  const EMPTY_SLOTS: seq<string> := [EMPTY_SLOT, EMPTY_SLOT, EMPTY_SLOT, EMPTY_SLOT]

  /** The cell a new board has in column c. */
  function NewCell(c: int): Cell
  {
    if c < PEG_COLUMN then Hole(HOLE) else Slots(EMPTY_SLOTS)
  }

  /** Column `c` of a guess painted with the colour named `name`. */
  function Painted(name: string, cell: string): string
  {
    BoardColorCode(name) + cell + RESET
  }

  /** The slots after insert_key_pegs: red pegs first, then white pegs, then
      the slots left empty. */
  function PegRow(pegs: KeyPegs): (row: seq<string>)
    ensures |row| == SLOTS
  {
    seq(SLOTS, i requires 0 <= i < SLOTS =>
      if i < pegs.red then RED_PEG else if i < pegs.red + pegs.white then WHITE_PEG else EMPTY_SLOT)
  }

  /** What check_red_key_pegs asks of a row's slots: every one a red peg. */
  predicate AllRedPegs(slots: seq<string>)
  {
    forall i :: 0 <= i < |slots| ==> slots[i] == RED_PEG
  }

  /** The code is cracked exactly when four red pegs were inserted. */
  lemma CrackedIffFourRed(pegs: KeyPegs)
    requires pegs.red + pegs.white <= SLOTS
    ensures AllRedPegs(PegRow(pegs)) <==> pegs.red == SLOTS
  {
    if pegs.red < SLOTS {
      var row := PegRow(pegs);
      assert row[pegs.red] != RED_PEG by {
        assert RED_PEG[1] == '[' && RED_PEG[2] == '3';
        assert WHITE_PEG[2] == '0' && EMPTY_SLOT != RED_PEG;
      }
    }
  }

  class Board {
    var board: array2<Cell>
    var rowPointer: int
    var codeCracked: bool
    var playersRole: string

    /** 12 x 5 cells of the right kinds; the rows above `rowPointer` are
        untouched, and so are the peg slots of row `rowPointer`. */
    ghost predicate Valid()
      reads this, board
    {
      && board.Length0 == ROWS && board.Length1 == COLUMNS
      && -1 <= rowPointer < ROWS
      && (forall r, c :: 0 <= r < ROWS && 0 <= c < PEG_COLUMN ==> board[r, c].Hole?)
      && (forall r :: 0 <= r < ROWS ==> board[r, PEG_COLUMN].Slots? && |board[r, PEG_COLUMN].slots| == SLOTS)
      && (forall r, c :: 0 <= r < rowPointer && 0 <= c < COLUMNS ==> board[r, c] == NewCell(c))
      && (0 <= rowPointer ==> board[rowPointer, PEG_COLUMN] == Slots(EMPTY_SLOTS))
    }

    /** initialize: every row new, `rowPointer` at the bottom row, not cracked. */
    constructor ()
      ensures Valid() && fresh(board)
      ensures forall r, c :: 0 <= r < ROWS && 0 <= c < COLUMNS ==> board[r, c] == NewCell(c)
      ensures rowPointer == 11 && !codeCracked && playersRole == ""
    {
      board := new Cell[ROWS, COLUMNS]((r, c) => NewCell(c));
      rowPointer := 11;
      codeCracked := false;
      playersRole := "";
    }

    /** insert_guess: paints hole c of the current row with the colour of
        the c-th word of the guess; nothing else changes. */
    method InsertGuess(guess: string)
      requires Valid() && 0 <= rowPointer
      requires |Split(guess)| <= PEG_COLUMN
      modifies board
      ensures Valid()
      ensures forall c :: 0 <= c < |Split(guess)| ==>
                board[rowPointer, c] == Hole(Painted(Split(guess)[c], old(board[rowPointer, c]).text))
      ensures forall r, c :: 0 <= r < ROWS && 0 <= c < COLUMNS && (r != rowPointer || c >= |Split(guess)|) ==>
                board[r, c] == old(board[r, c])
    {
      var words := Split(guess);
      for c := 0 to |words|
        invariant Valid()
        invariant forall c' :: 0 <= c' < c ==> board[rowPointer, c'] == Hole(Painted(words[c'], old(board[rowPointer, c']).text))
        invariant forall r, c' :: 0 <= r < ROWS && 0 <= c' < COLUMNS && (r != rowPointer || c' >= c) ==>
                    board[r, c'] == old(board[r, c'])
      {
        board[rowPointer, c] := Hole(Painted(words[c], board[rowPointer, c].text));
      }
    }

    /** insert_key_pegs: red pegs, then white pegs, into the slots of the
        current row; then `rowPointer` moves one row up. */
    method InsertKeyPegs(pegs: KeyPegs)
      requires Valid() && 0 <= rowPointer
      requires pegs.red + pegs.white <= SLOTS
      modifies this, board
      ensures Valid() && board == old(board)
      ensures rowPointer == old(rowPointer) - 1
      ensures board[old(rowPointer), PEG_COLUMN] == Slots(PegRow(pegs))
      ensures forall r, c :: 0 <= r < ROWS && 0 <= c < COLUMNS && (r != old(rowPointer) || c != PEG_COLUMN) ==>
                board[r, c] == old(board[r, c])
      ensures codeCracked == old(codeCracked) && playersRole == old(playersRole)
    {
      var row := rowPointer;
      var idx := 0;
      for n := 0 to pegs.red
        invariant board == old(board) && rowPointer == row && codeCracked == old(codeCracked) && playersRole == old(playersRole)
        invariant idx == n
        invariant board[row, PEG_COLUMN] == Slots(seq(SLOTS, i requires 0 <= i < SLOTS => if i < n then RED_PEG else EMPTY_SLOT))
        invariant forall r, c :: 0 <= r < ROWS && 0 <= c < COLUMNS && (r != row || c != PEG_COLUMN) ==> board[r, c] == old(board[r, c])
      {
        board[row, PEG_COLUMN] := Slots(board[row, PEG_COLUMN].slots[idx := RED_PEG]);
        idx := idx + 1;
      }
      assert PegRow(KeyPegs(pegs.red, 0)) == seq(SLOTS, i requires 0 <= i < SLOTS => if i < pegs.red then RED_PEG else EMPTY_SLOT);
      for n := 0 to pegs.white
        invariant board == old(board) && rowPointer == row && codeCracked == old(codeCracked) && playersRole == old(playersRole)
        invariant idx == pegs.red + n
        invariant board[row, PEG_COLUMN] == Slots(PegRow(KeyPegs(pegs.red, n)))
        invariant forall r, c :: 0 <= r < ROWS && 0 <= c < COLUMNS && (r != row || c != PEG_COLUMN) ==> board[r, c] == old(board[r, c])
      {
        board[row, PEG_COLUMN] := Slots(board[row, PEG_COLUMN].slots[idx := WHITE_PEG]);
        idx := idx + 1;
      }
      rowPointer := rowPointer - 1;
    }

    /** check_red_key_pegs: cracked when every slot of the row just scored
        holds a red peg. */
    method CheckRedKeyPegs()
      requires Valid() && rowPointer + 1 < ROWS
      modifies this`codeCracked
      ensures Valid()
      ensures codeCracked <==> AllRedPegs(board[rowPointer + 1, PEG_COLUMN].slots)
    {
      codeCracked := AllRedPegs(board[rowPointer + 1, PEG_COLUMN].slots);
    }
  }
}
