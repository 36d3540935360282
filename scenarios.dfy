/**
  Concrete games, worked out on the model: a player whose model never
  answers aborts the game on the empty board, a turn that succeeds on its
  third attempt, and two models that always name the lowest free cell,
  which end with X winning on the anti-diagonal.
 */
module Scenarios {
  import opened Wrappers
  import opened Board
  import opened Moves
  import opened Game

  /** Both models answer with nothing but whitespace. */
  function Silent(b: seq<Cell>, p: Player, k: nat): string {
    " "
  }

  /** X's three blank answers abort the game before any move is made. */
  lemma SilentAborts()
    ensures Play(Silent) == Record(Aborted(X), NewBoard(), [])
  {
    var b := NewBoard();
    NewBoardMoves();
    FullIffNoMoves(b);
    NewBoardNoWinner(X);
    NewBoardNoWinner(O);
    FirstTokenBlank(" ");
    AcquireFails(b, X, Silent, 0);
  }

  /** A model that rambles, then names a cell off the board, then answers properly. */
  function Rambling(b: seq<Cell>, p: Player, k: nat): string {
    if k == 0 then "centre" else if k == 1 then "9" else " 4\n"
  }

  /** "centre" has no number in it. */
  lemma NoNumber()
    ensures ValidateMove(NewBoard(), "centre").None?
  {
    FirstTokenOf("", "centre", "");
    assert [] + "centre" + [] == "centre";
  }

  /** "9" is a number, but not a cell of the board. */
  lemma OffBoard()
    ensures ValidateMove(NewBoard(), "9").None?
  {
    assert Decimal(9) == "9";
    FirstTokenOf("", "9", "");
    assert [] + "9" + [] == "9";
    ParseDecimal(9);
    ValidateMoveExact(NewBoard(), "9");
  }

  lemma FourText()
    ensures " " + Decimal(4) + "\n" == " 4\n"
  {
    assert Decimal(4) == "4";
  }

  /** " 4\n" names the free cell 4: surrounding whitespace is stripped. */
  lemma CentreCell()
    ensures ValidateMove(NewBoard(), " 4\n") == Some(4)
  {
    ValidateAcceptsLegal(NewBoard(), 4, " ", "\n");
    FourText();
  }

  /**
    The first two answers are refused, one as unparsable and one as out of
    range, and the third is accepted: the turn plays cell 4.
   */
  lemma RamblingTurn()
    ensures Attempt(NewBoard(), X, Rambling, 0).None?
    ensures Attempt(NewBoard(), X, Rambling, 1).None?
    ensures Acquire(NewBoard(), X, Rambling, 0) == Some(4)
  {
    NoNumber();
    OffBoard();
    CentreCell();
    assert Rambling(NewBoard(), X, 0) == "centre";
    assert Rambling(NewBoard(), X, 1) == "9";
    assert Rambling(NewBoard(), X, 2) == " 4\n";
  }

  /** Both models always name the lowest free cell. */
  function LowestFree(b: seq<Cell>, p: Player, k: nat): string {
    var moves := AvailableMoves(b);
    if moves == [] then "" else Decimal(moves[0])
  }

  /** The board after `t` moves of that game: cells `0..t-1` taken X, O, X, … */
  function LowBoard(t: nat): (b: seq<Cell>)
    ensures |b| == Size
  {
    seq(Size, i => if 0 <= i < t then Mover(X, i) else Empty)
  }

  lemma LowBoardStart()
    ensures LowBoard(0) == NewBoard()
  {
  }

  /** When cells below `t` are taken and `t` is free, the lowest free cell is `t`. */
  lemma LowestMoveIs(b: seq<Cell>, t: nat)
    requires t < |b| && b[t] == Empty
    requires forall i :: 0 <= i < t ==> b[i] != Empty
    ensures AvailableMoves(b) != [] && AvailableMoves(b)[0] == t
  {
    var r := AvailableMoves(b);
    assert t in r;
    assert r[0] in r;
  }

  /** No line is complete before the seventh move, and the board is not full. */
  lemma LowBoardInPlay(t: nat)
    requires t < 7
    ensures !Terminal(LowBoard(t))
  {
    var b := LowBoard(t);
    WinnerIffSomePattern(b, X);
    WinnerIffSomePattern(b, O);
    assert b[8] == Empty;
  }

  /** On each of the first seven turns the mover plays the lowest free cell. */
  lemma LowStep(t: nat)
    requires t < 7
    ensures var r := Run(LowBoard(t + 1), Mover(X, t + 1), LowestFree);
      Run(LowBoard(t), Mover(X, t), LowestFree) == Record(r.outcome, r.board, [t] + r.log)
  {
    var b := LowBoard(t);
    LowBoardInPlay(t);
    LowestMoveIs(b, t);
    ValidateAcceptsLegal(b, t, "", "");
    assert [] + Decimal(t) + [] == Decimal(t);
    assert Acquire(b, Mover(X, t), LowestFree, 0) == Some(t);
    assert b[t := Mover(X, t)] == LowBoard(t + 1);
    MoverNext(X, t);
    RunStep(b, Mover(X, t), LowestFree, t);
  }

  /** After seven moves X holds the anti-diagonal, the first complete pattern. */
  lemma LowBoardWon()
    ensures Terminal(LowBoard(7)) && Classify(LowBoard(7)) == Won(X, Line(2, 4, 6))
  {
    var b := LowBoard(7);
    WinningLineFirst(b, X);
    var m :| FirstCompleteFrom(b, X, 0, m) && WinningLine(b, X).value == Lines[m];
    assert !Complete(b, X, Lines[6]);
    assert m == 7;
  }

  /** The cells `a..b-1` in ascending order. */
  function Range(a: nat, b: nat): seq<nat>
    decreases b - a
  {
    if a >= b then [] else [a] + Range(a + 1, b)
  }

  lemma RangeSeven()
    ensures Range(0, 7) == [0, 1, 2, 3, 4, 5, 6]
  {
    assert Range(6, 7) == [6];
    assert Range(4, 7) == [4, 5, 6];
    assert Range(2, 7) == [2, 3, 4, 5, 6];
  }

  /** From move `t` on, the game plays cells `t..6` and X wins. */
  lemma {:induction false} LowFrom(t: nat)
    requires t <= 7
    decreases 7 - t
    ensures Run(LowBoard(t), Mover(X, t), LowestFree) ==
      Record(Won(X, Line(2, 4, 6)), LowBoard(7), Range(t, 7))
  {
    if t == 7 {
      LowBoardWon();
      RunStop(LowBoard(7), Mover(X, 7), LowestFree);
    } else {
      LowStep(t);
      LowFrom(t + 1);
    }
  }

  /**
    Two models that always take the lowest free cell do not draw: X wins
    on the anti-diagonal 2, 4, 6 after seven moves.
   */
  lemma LowestFreeGame()
    ensures Play(LowestFree) == Record(Won(X, Line(2, 4, 6)), LowBoard(7), [0, 1, 2, 3, 4, 5, 6])
  {
    LowBoardStart();
    LowFrom(0);
    RangeSeven();
  }
}
