/**
  The 3x3 board: a row-major sequence of nine cells, the eight winning
  lines, and the pure queries the game loop asks of a board.
 */
module Board {
  import opened Wrappers

  /** What a cell holds: the source stores the strings "-", "X" and "O". */
  datatype Cell = Empty | X | O

  /** A mark a player places; X moves first. */
  type Player = c: Cell | c != Empty witness X

  /** Number of cells on the board. */
  const Size: nat := 9

  function Other(p: Player): (q: Player)
    ensures q != p
  {
    if p == X then O else X
  }

  // ---------------------------------------------------------------------
  // new_board

  /** A fresh board: nine empty cells. */
  function NewBoard(): (b: seq<Cell>)
    ensures |b| == Size
    ensures forall i :: 0 <= i < |b| ==> b[i] == Empty
  {
    seq(Size, _ => Empty)
  }

  // ---------------------------------------------------------------------
  // is_winner

  /** A winning pattern: three cell indices. */
  datatype Line = Line(i: nat, j: nat, k: nat)

  /** The patterns in the order they are scanned: rows, columns, diagonals. */
  const Lines: seq<Line> := [
    Line(0, 1, 2), Line(3, 4, 5), Line(6, 7, 8),
    Line(0, 3, 6), Line(1, 4, 7), Line(2, 5, 8),
    Line(0, 4, 8), Line(2, 4, 6)
  ]

  /** Every cell of line `l` holds `p`. */
  predicate Complete(b: seq<Cell>, p: Cell, l: Line) {
    l.i < |b| && l.j < |b| && l.k < |b| && b[l.i] == p && b[l.j] == p && b[l.k] == p
  }

  /** `Lines[n]` is complete for `p` and no line scanned before it from `from` on is. */
  ghost predicate FirstCompleteFrom(b: seq<Cell>, p: Cell, from: int, n: int) {
    0 <= from <= n < |Lines| && Complete(b, p, Lines[n]) &&
    forall m :: from <= m < n ==> !Complete(b, p, Lines[m])
  }

  /** The scan of `is_winner`, resumed at pattern `n`. */
  function ScanLines(b: seq<Cell>, p: Player, n: nat): Option<Line>
    requires n <= |Lines|
    decreases |Lines| - n
  {
    if n == |Lines| then None
    else if Complete(b, p, Lines[n]) then Some(Lines[n])
    else ScanLines(b, p, n + 1)
  }

  /** The scan from pattern `n` on finds the first complete pattern, if any. */
  lemma {:induction false} ScanLinesFirst(b: seq<Cell>, p: Player, n: nat)
    requires n <= |Lines|
    decreases |Lines| - n
    ensures var r := ScanLines(b, p, n);
      (r.None? <==> forall m :: n <= m < |Lines| ==> !Complete(b, p, Lines[m])) &&
      (r.Some? ==> exists m :: FirstCompleteFrom(b, p, n, m) && r.value == Lines[m])
  {
    if n < |Lines| && !Complete(b, p, Lines[n]) {
      ScanLinesFirst(b, p, n + 1);
      var r := ScanLines(b, p, n + 1);
      if r.Some? {
        var m :| FirstCompleteFrom(b, p, n + 1, m) && r.value == Lines[m];
        assert FirstCompleteFrom(b, p, n, m);
      }
    } else if n < |Lines| {
      assert FirstCompleteFrom(b, p, n, n);
    }
  }

  /**
    `is_winner(board, player)`: `Some(pattern)` for the first complete pattern
    in scan order, `None` when there is none.
   */
  function WinningLine(b: seq<Cell>, p: Player): Option<Line>
    requires |b| == Size
  {
    ScanLines(b, p, 0)
  }

  /**
    `is_winner` returns a pattern exactly when some pattern is complete for
    `p`, and then the first complete one in the order rows, columns,
    diagonals.
   */
  lemma WinningLineFirst(b: seq<Cell>, p: Player)
    requires |b| == Size
    ensures var r := WinningLine(b, p);
      (r.None? <==> forall m :: 0 <= m < |Lines| ==> !Complete(b, p, Lines[m])) &&
      (r.Some? ==> exists m :: FirstCompleteFrom(b, p, 0, m) && r.value == Lines[m])
  {
    ScanLinesFirst(b, p, 0);
  }

  predicate IsWinner(b: seq<Cell>, p: Player)
    requires |b| == Size
  {
    WinningLine(b, p).Some?
  }

  /** The cell at `row`, `col` of the row-major board. */
  function At(b: seq<Cell>, row: nat, col: nat): Cell
    requires |b| == Size && row < 3 && col < 3
  {
    b[3 * row + col]
  }

  ghost predicate RowFilled(b: seq<Cell>, p: Cell, row: nat)
    requires |b| == Size && row < 3
  {
    forall col: nat :: col < 3 ==> At(b, row, col) == p
  }

  ghost predicate ColumnFilled(b: seq<Cell>, p: Cell, col: nat)
    requires |b| == Size && col < 3
  {
    forall row: nat :: row < 3 ==> At(b, row, col) == p
  }

  /**
    Geometric reference: `p` fills a whole row, a whole column, the main
    diagonal (row == col) or the anti-diagonal (row + col == 2).
   */
  ghost predicate HasLine(b: seq<Cell>, p: Cell)
    requires |b| == Size
  {
    (exists row: nat :: row < 3 && RowFilled(b, p, row)) ||
    (exists col: nat :: col < 3 && ColumnFilled(b, p, col)) ||
    (forall row: nat, col: nat :: row < 3 && col < 3 && row == col ==> At(b, row, col) == p) ||
    (forall row: nat, col: nat :: row < 3 && col < 3 && row + col == 2 ==> At(b, row, col) == p)
  }

  lemma RowFilledCells(b: seq<Cell>, p: Cell, row: nat)
    requires |b| == Size && row < 3
    ensures RowFilled(b, p, row) <==> b[3 * row] == p && b[3 * row + 1] == p && b[3 * row + 2] == p
  {
    assert At(b, row, 0) == b[3 * row] && At(b, row, 1) == b[3 * row + 1] && At(b, row, 2) == b[3 * row + 2];
  }

  lemma ColumnFilledCells(b: seq<Cell>, p: Cell, col: nat)
    requires |b| == Size && col < 3
    ensures ColumnFilled(b, p, col) <==> b[col] == p && b[col + 3] == p && b[col + 6] == p
  {
    assert At(b, 0, col) == b[col] && At(b, 1, col) == b[col + 3] && At(b, 2, col) == b[col + 6];
  }

  /** The cell-wise form of the main and the anti-diagonal. */
  lemma DiagonalCells(b: seq<Cell>, p: Cell)
    requires |b| == Size
    ensures (forall row: nat, col: nat :: row < 3 && col < 3 && row == col ==> At(b, row, col) == p)
            <==> b[0] == p && b[4] == p && b[8] == p
    ensures (forall row: nat, col: nat :: row < 3 && col < 3 && row + col == 2 ==> At(b, row, col) == p)
            <==> b[2] == p && b[4] == p && b[6] == p
  {
    assert At(b, 0, 0) == b[0] && At(b, 1, 1) == b[4] && At(b, 2, 2) == b[8];
    assert At(b, 0, 2) == b[2] && At(b, 2, 0) == b[6];
  }

  /** `is_winner` finds a line exactly when one of the eight patterns is complete. */
  lemma WinnerIffSomePattern(b: seq<Cell>, p: Player)
    requires |b| == Size
    ensures IsWinner(b, p) <==>
      Complete(b, p, Lines[0]) || Complete(b, p, Lines[1]) || Complete(b, p, Lines[2]) ||
      Complete(b, p, Lines[3]) || Complete(b, p, Lines[4]) || Complete(b, p, Lines[5]) ||
      Complete(b, p, Lines[6]) || Complete(b, p, Lines[7])
  {
    WinningLineFirst(b, p);
    if IsWinner(b, p) {
      var m :| FirstCompleteFrom(b, p, 0, m);
      assert m == 0 || m == 1 || m == 2 || m == 3 || m == 4 || m == 5 || m == 6 || m == 7;
    }
  }

  /** `is_winner` reports a winner exactly when `p` holds a full row, column or diagonal. */
  lemma WinnerIffHasLine(b: seq<Cell>, p: Player)
    requires |b| == Size
    ensures IsWinner(b, p) <==> HasLine(b, p)
  {
    WinnerIffSomePattern(b, p);
    RowFilledCells(b, p, 0); RowFilledCells(b, p, 1); RowFilledCells(b, p, 2);
    ColumnFilledCells(b, p, 0); ColumnFilledCells(b, p, 1); ColumnFilledCells(b, p, 2);
    DiagonalCells(b, p);
    assert (exists row: nat :: row < 3 && RowFilled(b, p, row)) <==>
      RowFilled(b, p, 0) || RowFilled(b, p, 1) || RowFilled(b, p, 2);
    assert (exists col: nat :: col < 3 && ColumnFilled(b, p, col)) <==>
      ColumnFilled(b, p, 0) || ColumnFilled(b, p, 1) || ColumnFilled(b, p, 2);
  }

  /** Only cells equal to `p` matter: setting a cell to another mark gives `p` no new line. */
  lemma MarkGivesOthersNoLine(b: seq<Cell>, m: nat, mark: Player, p: Player)
    requires |b| == Size && m < Size && p != mark
    requires !IsWinner(b, p)
    ensures !IsWinner(b[m := mark], p)
  {
    WinningLineFirst(b, p);
    WinningLineFirst(b[m := mark], p);
    forall n | 0 <= n < |Lines|
      ensures !Complete(b[m := mark], p, Lines[n])
    {
      assert !Complete(b, p, Lines[n]);
    }
  }

  // ---------------------------------------------------------------------
  // is_full and available_moves

  /** `is_full`: no cell is empty. */
  predicate IsFull(b: seq<Cell>) {
    forall i :: 0 <= i < |b| ==> b[i] != Empty
  }

  /** The comprehension of `available_moves`, from index `n` on. */
  function MovesFrom(b: seq<Cell>, n: nat): (r: seq<nat>)
    requires n <= |b|
    decreases |b| - n
    ensures |r| <= |b| - n
    ensures forall t :: 0 <= t < |r| ==> n <= r[t] < |b| && b[r[t]] == Empty
    ensures forall t, u :: 0 <= t < u < |r| ==> r[t] < r[u]
    ensures forall i {:trigger i in r} :: n <= i < |b| && b[i] == Empty ==> i in r
  {
    if n == |b| then []
    else if b[n] == Empty then [n] + MovesFrom(b, n + 1)
    else MovesFrom(b, n + 1)
  }

  /**
    `available_moves`: the indices of the empty cells, in strictly ascending
    order, and no others.
   */
  function AvailableMoves(b: seq<Cell>): (r: seq<nat>)
    ensures forall t, u :: 0 <= t < u < |r| ==> r[t] < r[u]
    ensures forall i: int {:trigger i in r} :: i in r <==> 0 <= i < |b| && b[i] == Empty
  {
    MovesFrom(b, 0)
  }

  lemma {:induction false} MovesFromNone(b: seq<Cell>, n: nat)
    requires n <= |b|
    decreases |b| - n
    ensures MovesFrom(b, n) == [] <==> forall i :: n <= i < |b| ==> b[i] != Empty
  {
    if n < |b| {
      MovesFromNone(b, n + 1);
    }
  }

  /** `is_full` holds exactly when there is no available move. */
  lemma FullIffNoMoves(b: seq<Cell>)
    ensures IsFull(b) <==> AvailableMoves(b) == []
  {
    MovesFromNone(b, 0);
  }

  lemma {:induction false} MovesFromAfterMark(b: seq<Cell>, m: nat, mark: Player, n: nat)
    requires m < |b| && b[m] == Empty && n <= |b|
    decreases |b| - n
    ensures |MovesFrom(b[m := mark], n)| == |MovesFrom(b, n)| - (if n <= m then 1 else 0)
  {
    if n < |b| {
      MovesFromAfterMark(b, m, mark, n + 1);
    }
  }

  /** Marking an empty cell removes exactly one available move. */
  lemma MarkRemovesOneMove(b: seq<Cell>, m: nat, mark: Player)
    requires m < |b| && b[m] == Empty
    ensures |AvailableMoves(b[m := mark])| == |AvailableMoves(b)| - 1
  {
    MovesFromAfterMark(b, m, mark, 0);
  }

  /** On a board of empty cells, the moves from `n` on are `n`, `n + 1`, ... */
  lemma {:induction false} MovesFromAllEmpty(b: seq<Cell>, n: nat)
    requires forall i :: 0 <= i < |b| ==> b[i] == Empty
    requires n <= |b|
    decreases |b| - n
    ensures |MovesFrom(b, n)| == |b| - n
    ensures forall t :: 0 <= t < |b| - n ==> MovesFrom(b, n)[t] == n + t
  {
    if n < |b| {
      MovesFromAllEmpty(b, n + 1);
    }
  }

  /** A fresh board offers every index 0..8 in order, so it is not full. */
  lemma NewBoardMoves()
    ensures |AvailableMoves(NewBoard())| == Size
    ensures forall t :: 0 <= t < Size ==> AvailableMoves(NewBoard())[t] == t
    ensures !IsFull(NewBoard())
  {
    MovesFromAllEmpty(NewBoard(), 0);
    assert NewBoard()[0] == Empty;
  }

  /** Nobody has won on a fresh board. */
  lemma NewBoardNoWinner(p: Player)
    ensures !IsWinner(NewBoard(), p)
  {
    WinnerIffSomePattern(NewBoard(), p);
  }

  // ---------------------------------------------------------------------
  // board_to_string

  /** The string a cell holds in the source. */
  function Symbol(c: Cell): char {
    match c
    case Empty => '-'
    case X => 'X'
    case O => 'O'
  }

  /** Python's `sep.join(parts)`. */
  function Join(sep: string, parts: seq<string>): string
    decreases |parts|
  {
    if |parts| == 0 then ""
    else if |parts| == 1 then parts[0]
    else parts[0] + sep + Join(sep, parts[1..])
  }

  function Symbols(cells: seq<Cell>): seq<string> {
    seq(|cells|, i requires 0 <= i < |cells| => [Symbol(cells[i])])
  }

  /** `board_to_string`: the three rows, each joined by spaces, joined by newlines. */
  function BoardToString(b: seq<Cell>): string
    requires |b| == Size
  {
    Join("\n", [Join(" ", Symbols(b[0..3])), Join(" ", Symbols(b[3..6])), Join(" ", Symbols(b[6..9]))])
  }

  /** The text of the row that starts at cell `i`. */
  function RowText(b: seq<Cell>, i: nat): string
    requires i + 3 <= |b|
  {
    [Symbol(b[i]), ' ', Symbol(b[i + 1]), ' ', Symbol(b[i + 2])]
  }

  /** The character after cell `i`'s symbol: a space inside a row, a newline after it. */
  function Separator(i: nat): char {
    if i % 3 == 2 then '\n' else ' '
  }

  lemma JoinThree(sep: string, a: string, b: string, c: string)
    ensures Join(sep, [a, b, c]) == a + sep + b + sep + c
  {
    assert [a, b, c][1..] == [b, c];
    assert [b, c][1..] == [c];
    assert Join(sep, [c]) == c;
    assert Join(sep, [b, c]) == b + sep + c;
    assert Join(sep, [a, b, c]) == a + sep + (b + sep + c);
  }

  /**
    The text has three lines separated by newlines; line `r` holds the
    symbols of cells 3r, 3r+1, 3r+2 separated by single spaces. Hence the
    symbol of cell `i` sits at character 2i, followed by a separator.
   */
  lemma BoardToStringLayout(b: seq<Cell>)
    requires |b| == Size
    ensures BoardToString(b) == RowText(b, 0) + "\n" + RowText(b, 3) + "\n" + RowText(b, 6)
    ensures |BoardToString(b)| == 17
    ensures forall i :: 0 <= i < Size ==> BoardToString(b)[2 * i] == Symbol(b[i])
    ensures forall i :: 0 <= i < Size - 1 ==> BoardToString(b)[2 * i + 1] == Separator(i)
  {
    forall i | 0 <= i < 7 && i % 3 == 0
      ensures Join(" ", Symbols(b[i..i + 3])) == RowText(b, i)
    {
      var row := Symbols(b[i..i + 3]);
      assert row == [[Symbol(b[i])], [Symbol(b[i + 1])], [Symbol(b[i + 2])]];
      JoinThree(" ", row[0], row[1], row[2]);
    }
    assert Join(" ", Symbols(b[0..3])) == RowText(b, 0);
    assert Join(" ", Symbols(b[3..6])) == RowText(b, 3);
    assert Join(" ", Symbols(b[6..9])) == RowText(b, 6);
    JoinThree("\n", RowText(b, 0), RowText(b, 3), RowText(b, 6));
  }

  /** The cell a board symbol stands for. */
  function CellOf(c: char): Option<Cell> {
    if c == '-' then Some(Empty)
    else if c == 'X' then Some(X)
    else if c == 'O' then Some(O)
    else None
  }

  /** Reads a board back from its text: the symbol of cell `i` at character 2i. */
  function ParseBoard(s: string): Option<seq<Cell>> {
    if |s| != 17 then None
    else
      var cells := seq(Size, i requires 0 <= i < Size => CellOf(s[2 * i]));
      if forall i :: 0 <= i < Size ==> cells[i].Some? then
        Some(seq(Size, i requires 0 <= i < Size => cells[i].value))
      else None
  }

  /** The board text loses nothing: reading it back gives the board. */
  lemma BoardToStringRoundTrip(b: seq<Cell>)
    requires |b| == Size
    ensures ParseBoard(BoardToString(b)) == Some(b)
  {
    BoardToStringLayout(b);
    var s := BoardToString(b);
    forall i | 0 <= i < Size ensures CellOf(s[2 * i]) == Some(b[i]) {
      assert s[2 * i] == Symbol(b[i]);
    }
    var cells := seq(Size, i requires 0 <= i < Size => CellOf(s[2 * i]));
    assert seq(Size, i requires 0 <= i < Size => cells[i].value) == b;
  }
}
