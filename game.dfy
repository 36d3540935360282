/**
  The turn engine of `play_game`: X and O alternate, each turn asks the
  player's language model up to three times for a move, an accepted move is
  written into the board, and the game ends with a win, a draw, or an abort
  when a player gives no acceptable answer in three attempts.
 */
module Game {
  import opened Wrappers
  import opened Board
  import opened Moves

  /**
    The language model behind the players, as an oracle: its text answer to
    the prompt built from this board for this player, on attempt 0, 1 or 2
    of the turn.
   */
  type Proposer = (seq<Cell>, Player, nat) -> string

  /** Attempts per turn before the game is aborted. */
  const MaxAttempts: nat := 3

  /** How a game ends. */
  datatype Outcome = Won(winner: Player, line: Line) | Draw | Aborted(player: Player)

  /**
    A played game: its outcome, the final board, and the accepted moves in
    order (what the source logs as "X plays at position m").
   */
  datatype Record = Record(outcome: Outcome, board: seq<Cell>, log: seq<nat>)

  /** The player on turn after `t` moves, when `p` moved first. */
  function Mover(p: Player, t: nat): Player {
    if t % 2 == 0 then p else Other(p)
  }

  lemma MoverNext(p: Player, t: nat)
    ensures Mover(Other(p), t) == Mover(p, t + 1)
    ensures Other(Mover(p, t)) == Mover(p, t + 1)
  {
  }

  /** One call of `get_llm_move`: the model's answer, validated. */
  function Attempt(b: seq<Cell>, p: Player, propose: Proposer, k: nat): Option<nat> {
    ValidateMove(b, propose(b, p, k))
  }

  /**
    The retry loop of one turn, from attempt `k` on: the first accepted
    answer, or `None` when every remaining attempt is refused.
   */
  function Acquire(b: seq<Cell>, p: Player, propose: Proposer, k: nat): (r: Option<nat>)
    requires k <= MaxAttempts
    decreases MaxAttempts - k
    ensures r.Some? ==> r.value < |b| && b[r.value] == Empty
  {
    if k == MaxAttempts then None
    else match Attempt(b, p, propose, k)
      case Some(m) => Some(m)
      case None => Acquire(b, p, propose, k + 1)
  }

  /** A turn fails exactly when every remaining attempt is refused. */
  lemma {:induction false} AcquireFails(b: seq<Cell>, p: Player, propose: Proposer, k: nat)
    requires k <= MaxAttempts
    decreases MaxAttempts - k
    ensures Acquire(b, p, propose, k).None? <==>
      forall j: nat :: k <= j < MaxAttempts ==> Attempt(b, p, propose, j).None?
  {
    if k < MaxAttempts {
      AcquireFails(b, p, propose, k + 1);
    }
  }

  /** Attempt `j` is the first from `k` on whose answer is accepted. */
  ghost predicate FirstAcceptedFrom(b: seq<Cell>, p: Player, propose: Proposer, k: nat, j: nat) {
    k <= j < MaxAttempts && Attempt(b, p, propose, j).Some? &&
    forall i: nat :: k <= i < j ==> Attempt(b, p, propose, i).None?
  }

  /** A turn accepts the answer of the first attempt that is accepted. */
  lemma {:induction false} AcquireFirst(b: seq<Cell>, p: Player, propose: Proposer, k: nat)
    requires k <= MaxAttempts
    decreases MaxAttempts - k
    ensures var r := Acquire(b, p, propose, k);
      r.Some? ==> exists j: nat :: FirstAcceptedFrom(b, p, propose, k, j) && r == Attempt(b, p, propose, j)
  {
    if k < MaxAttempts {
      if Attempt(b, p, propose, k).Some? {
        assert FirstAcceptedFrom(b, p, propose, k, k);
      } else {
        AcquireFirst(b, p, propose, k + 1);
        var r := Acquire(b, p, propose, k + 1);
        if r.Some? {
          var j: nat :| FirstAcceptedFrom(b, p, propose, k + 1, j) && r == Attempt(b, p, propose, j);
          assert FirstAcceptedFrom(b, p, propose, k, j);
        }
      }
    }
  }

  /** The loop condition fails: someone has won or the board is full. */
  predicate Terminal(b: seq<Cell>)
    requires |b| == Size
  {
    IsWinner(b, X) || IsWinner(b, O) || IsFull(b)
  }

  /** The verdict after the loop: X's win is checked first, then O's, else a draw. */
  function Classify(b: seq<Cell>): Outcome
    requires |b| == Size
  {
    match WinningLine(b, X)
    case Some(l) => Won(X, l)
    case None =>
      match WinningLine(b, O)
      case Some(l) => Won(O, l)
      case None => Draw
  }

  /**
    The verdict names a player holding a full row, column or diagonal, with
    the first such pattern `is_winner` finds; O is named only when X has no
    line; a draw means neither player has one.
   */
  lemma ClassifyVerdict(b: seq<Cell>)
    requires |b| == Size
    ensures var o := Classify(b);
      !o.Aborted? &&
      (o.Won? ==> HasLine(b, o.winner) && WinningLine(b, o.winner) == Some(o.line)) &&
      (o.Won? && o.winner == O ==> !HasLine(b, X)) &&
      (o == Draw <==> !HasLine(b, X) && !HasLine(b, O))
  {
    WinnerIffHasLine(b, X);
    WinnerIffHasLine(b, O);
  }

  /**
    The rest of a game from board `b` with `p` on turn: the reference the
    method `PlayGame` is proved against.
   */
  function Run(b: seq<Cell>, p: Player, propose: Proposer): Record
    requires |b| == Size
    decreases |AvailableMoves(b)|
  {
    if Terminal(b) then Record(Classify(b), b, [])
    else match Acquire(b, p, propose, 0)
      case None => Record(Aborted(p), b, [])
      case Some(m) =>
        MarkRemovesOneMove(b, m, p);
        var r := Run(b[m := p], Other(p), propose);
        Record(r.outcome, r.board, [m] + r.log)
  }

  /** A whole game: X on turn on a fresh board. */
  function Play(propose: Proposer): Record {
    Run(NewBoard(), X, propose)
  }

  /** A game never makes more moves than there are free cells. */
  lemma {:induction false} RunLength(b: seq<Cell>, p: Player, propose: Proposer)
    requires |b| == Size
    decreases |AvailableMoves(b)|
    ensures |Run(b, p, propose).board| == Size
    ensures |Run(b, p, propose).log| <= |AvailableMoves(b)|
  {
    if !Terminal(b) && Acquire(b, p, propose, 0).Some? {
      var m := Acquire(b, p, propose, 0).value;
      MarkRemovesOneMove(b, m, p);
      RunLength(b[m := p], Other(p), propose);
    }
  }

  /** The moves of `log` are distinct cells, all empty on `b`. */
  ghost predicate FreshMoves(b: seq<Cell>, log: seq<nat>) {
    (forall t :: 0 <= t < |log| ==> log[t] < |b| && b[log[t]] == Empty) &&
    (forall t, u :: 0 <= t < u < |log| ==> log[t] != log[u])
  }

  /** A fresh move followed by moves fresh on the board it leaves is a fresh sequence of moves. */
  lemma FreshMovesCons(b: seq<Cell>, m: nat, p: Player, rest: seq<nat>)
    requires m < |b| && b[m] == Empty
    requires FreshMoves(b[m := p], rest)
    ensures FreshMoves(b, [m] + rest)
  {
    var b' := b[m := p];
    var log := [m] + rest;
    forall t | 0 <= t < |log| ensures log[t] < |b| && b[log[t]] == Empty {
      if t > 0 {
        assert log[t] == rest[t - 1] && b'[rest[t - 1]] == Empty;
      }
    }
    forall t, u | 0 <= t < u < |log| ensures log[t] != log[u] {
      assert log[u] == rest[u - 1] && b'[rest[u - 1]] == Empty;
      if t > 0 {
        assert log[t] == rest[t - 1];
      }
    }
  }

  /** Every logged move was on a cell that was empty, and no cell is played twice. */
  lemma {:induction false} RunFreshMoves(b: seq<Cell>, p: Player, propose: Proposer)
    requires |b| == Size
    decreases |AvailableMoves(b)|
    ensures FreshMoves(b, Run(b, p, propose).log)
  {
    if !Terminal(b) && Acquire(b, p, propose, 0).Some? {
      var m := Acquire(b, p, propose, 0).value;
      MarkRemovesOneMove(b, m, p);
      RunStep(b, p, propose, m);
      RunFreshMoves(b[m := p], Other(p), propose);
      FreshMovesCons(b, m, p, Run(b[m := p], Other(p), propose).log);
    }
  }

  /** `board` is `b` with cell `log[t]` set to the mark of the player on turn at move `t`. */
  ghost predicate MarkedBy(b: seq<Cell>, board: seq<Cell>, log: seq<nat>, p: Player)
    requires |b| == |board|
  {
    (forall t :: 0 <= t < |log| && log[t] < |board| ==> board[log[t]] == Mover(p, t)) &&
    (forall i :: 0 <= i < |b| && i !in log ==> board[i] == b[i])
  }

  /** Marking `m` for `p` and then the moves of `rest` marks all of `[m] + rest`, alternating from `p`. */
  lemma MarkedByCons(b: seq<Cell>, board: seq<Cell>, m: nat, p: Player, rest: seq<nat>)
    requires |b| == |board| && m < |b| && b[m] == Empty
    requires FreshMoves(b[m := p], rest) && MarkedBy(b[m := p], board, rest, Other(p))
    ensures MarkedBy(b, board, [m] + rest, p)
  {
    var b' := b[m := p];
    var log := [m] + rest;
    assert m !in rest by {
      forall t | 0 <= t < |rest| ensures rest[t] != m {
        assert b'[rest[t]] == Empty;
      }
    }
    forall t | 0 <= t < |log| && log[t] < |board| ensures board[log[t]] == Mover(p, t) {
      if t > 0 {
        assert log[t] == rest[t - 1];
        MoverNext(p, t - 1);
      }
    }
    forall i | 0 <= i < |b| && i !in log ensures board[i] == b[i] {
      assert i !in rest && i != m;
    }
  }

  /**
    The final board is the starting board with each logged move's cell set
    to the mark of the player who made it, and every other cell untouched.
   */
  lemma {:induction false} RunMarks(b: seq<Cell>, p: Player, propose: Proposer)
    requires |b| == Size
    decreases |AvailableMoves(b)|
    ensures |Run(b, p, propose).board| == Size
    ensures MarkedBy(b, Run(b, p, propose).board, Run(b, p, propose).log, p)
  {
    RunLength(b, p, propose);
    if !Terminal(b) && Acquire(b, p, propose, 0).Some? {
      var m := Acquire(b, p, propose, 0).value;
      MarkRemovesOneMove(b, m, p);
      RunStep(b, p, propose, m);
      RunMarks(b[m := p], Other(p), propose);
      RunFreshMoves(b[m := p], Other(p), propose);
      var r' := Run(b[m := p], Other(p), propose);
      MarkedByCons(b, r'.board, m, p, r'.log);
    }
  }

  /**
    A game stops only in one of two ways: aborted, with the player on turn
    refused on all three attempts at a board that was still in play; or
    with the loop condition false and the verdict of `Classify`.
   */
  lemma {:induction false} RunEnds(b: seq<Cell>, p: Player, propose: Proposer)
    requires |b| == Size
    decreases |AvailableMoves(b)|
    ensures var r := Run(b, p, propose);
      |r.board| == Size &&
      (r.outcome.Aborted? ==>
         r.outcome.player == Mover(p, |r.log|) && !Terminal(r.board) &&
         Acquire(r.board, r.outcome.player, propose, 0).None?) &&
      (!r.outcome.Aborted? ==> Terminal(r.board) && r.outcome == Classify(r.board))
  {
    if Terminal(b) {
      RunStop(b, p, propose);
    } else if Acquire(b, p, propose, 0).None? {
      RunAbort(b, p, propose);
    } else {
      var m := Acquire(b, p, propose, 0).value;
      MarkRemovesOneMove(b, m, p);
      RunStep(b, p, propose, m);
      RunEnds(b[m := p], Other(p), propose);
      MoverNext(p, |Run(b[m := p], Other(p), propose).log|);
    }
  }

  /**
    If the player on turn has no line yet, then at the end the player on
    turn still has none, and a winner is always the player who moved last:
    only the mover can complete a line.
   */
  lemma {:induction false} OnlyMoverWins(b: seq<Cell>, p: Player, propose: Proposer)
    requires |b| == Size && !IsWinner(b, p)
    decreases |AvailableMoves(b)|
    ensures var r := Run(b, p, propose);
      |r.board| == Size && !IsWinner(r.board, Mover(p, |r.log|)) &&
      (r.outcome.Won? ==> r.outcome.winner == Other(Mover(p, |r.log|)))
  {
    if !Terminal(b) && Acquire(b, p, propose, 0).Some? {
      var m := Acquire(b, p, propose, 0).value;
      MarkRemovesOneMove(b, m, p);
      MarkGivesOthersNoLine(b, m, p, Other(p));
      OnlyMoverWins(b[m := p], Other(p), propose);
      MoverNext(p, |Run(b[m := p], Other(p), propose).log|);
    }
  }

  /**
    The moves of a whole game: at most nine, on distinct indices 0..8; the
    final board holds X at the moves of even turns, O at those of odd
    turns, and is empty everywhere else.
   */
  lemma PlayMoves(propose: Proposer)
    ensures var r := Play(propose);
      |r.board| == Size && |r.log| <= Size &&
      (forall t :: 0 <= t < |r.log| ==> r.log[t] < Size && r.board[r.log[t]] == Mover(X, t)) &&
      (forall t, u :: 0 <= t < u < |r.log| ==> r.log[t] != r.log[u]) &&
      (forall i :: 0 <= i < Size && i !in r.log ==> r.board[i] == Empty)
  {
    var b := NewBoard();
    NewBoardMoves();
    RunLength(b, X, propose);
    RunFreshMoves(b, X, propose);
    RunMarks(b, X, propose);
  }

  /**
    How a whole game ends: an abort names the player on turn, whose three
    answers were all refused on a board still in play; otherwise the loop
    ran until a win or a full board and the verdict is `Classify`'s.
   */
  lemma PlayEnds(propose: Proposer)
    ensures var r := Play(propose);
      |r.board| == Size &&
      (r.outcome.Aborted? ==>
         r.outcome.player == Mover(X, |r.log|) && !Terminal(r.board) &&
         forall j: nat :: j < MaxAttempts ==> Attempt(r.board, r.outcome.player, propose, j).None?) &&
      (!r.outcome.Aborted? ==> Terminal(r.board) && r.outcome == Classify(r.board)) &&
      (r.outcome == Draw ==> IsFull(r.board) && !IsWinner(r.board, X) && !IsWinner(r.board, O))
  {
    var r := Play(propose);
    RunEnds(NewBoard(), X, propose);
    if r.outcome.Aborted? {
      AcquireFails(r.board, r.outcome.player, propose, 0);
    }
  }

  /**
    A win belongs to the player who made the last move, and the other
    player has no line then: checking X before O never decides anything.
   */
  lemma PlayWinner(propose: Proposer)
    ensures var r := Play(propose);
      |r.board| == Size &&
      (r.outcome.Won? ==>
         |r.log| > 0 && r.outcome.winner == Mover(X, |r.log| - 1) &&
         !IsWinner(r.board, Other(r.outcome.winner)))
  {
    var b := NewBoard();
    var r := Play(propose);
    NewBoardNoWinner(X);
    OnlyMoverWins(b, X, propose);
    if r.outcome.Won? {
      if |r.log| == 0 {
        RunMarks(b, X, propose);
        assert r.board == b by {
          forall i | 0 <= i < Size ensures r.board[i] == b[i] {
            assert i !in r.log;
          }
        }
        NewBoardNoWinner(r.outcome.winner);
      } else {
        MoverNext(X, |r.log| - 1);
      }
    }
  }

  /**
    A leaner engine: after each accepted move, look only at the player who
    just moved (a win), then at whether the board is full (a draw).
   */
  function RunMoverFirst(b: seq<Cell>, p: Player, propose: Proposer): Outcome
    requires |b| == Size
    decreases |AvailableMoves(b)|
  {
    match Acquire(b, p, propose, 0)
    case None => Aborted(p)
    case Some(m) =>
      MarkRemovesOneMove(b, m, p);
      var b' := b[m := p];
      if IsWinner(b', p) then Won(p, WinningLine(b', p).value)
      else if IsFull(b') then Draw
      else RunMoverFirst(b', Other(p), propose)
  }

  /**
    From a board still in play on which the player on turn has no line,
    `play_game`'s checks of X, then O, then a full board reach the same
    outcome as the leaner engine.
   */
  lemma {:induction false} RunAgrees(b: seq<Cell>, p: Player, propose: Proposer)
    requires |b| == Size && !Terminal(b)
    decreases |AvailableMoves(b)|
    ensures Run(b, p, propose).outcome == RunMoverFirst(b, p, propose)
  {
    match Acquire(b, p, propose, 0)
    case None =>
      RunAbort(b, p, propose);
    case Some(m) =>
      var b' := b[m := p];
      MarkRemovesOneMove(b, m, p);
      RunStep(b, p, propose, m);
      MarkGivesOthersNoLine(b, m, p, Other(p));
      if Terminal(b') {
        RunStop(b', Other(p), propose);
      } else {
        RunAgrees(b', Other(p), propose);
      }
  }

  /** A whole game has the outcome of the leaner engine. */
  lemma PlayAgrees(propose: Proposer)
    ensures Play(propose).outcome == RunMoverFirst(NewBoard(), X, propose)
  {
    NewBoardMoves();
    FullIffNoMoves(NewBoard());
    NewBoardNoWinner(X);
    NewBoardNoWinner(O);
    RunAgrees(NewBoard(), X, propose);
  }

  /** The loop condition fails: the game is over with the verdict of `Classify` and no more moves. */
  lemma RunStop(b: seq<Cell>, p: Player, propose: Proposer)
    requires |b| == Size && Terminal(b)
    ensures Run(b, p, propose) == Record(Classify(b), b, [])
  {
  }

  /** No answer is accepted: the game is aborted on the current board. */
  lemma RunAbort(b: seq<Cell>, p: Player, propose: Proposer)
    requires |b| == Size && !Terminal(b) && Acquire(b, p, propose, 0).None?
    ensures Run(b, p, propose) == Record(Aborted(p), b, [])
  {
  }

  /** One iteration of the loop: the accepted move is played and the other player is on turn. */
  lemma RunStep(b: seq<Cell>, p: Player, propose: Proposer, m: nat)
    requires |b| == Size && !Terminal(b) && Acquire(b, p, propose, 0) == Some(m)
    ensures var r := Run(b[m := p], Other(p), propose);
      Run(b, p, propose) == Record(r.outcome, r.board, [m] + r.log)
  {
  }

  /** `game` is the moves of `log` followed by the rest of the game `r`. */
  predicate Follows(game: Record, r: Record, log: seq<nat>) {
    game == Record(r.outcome, r.board, log + r.log)
  }

  /** After one more move the log grows by it and the rest of the game shrinks by it. */
  lemma FollowsAfterMove(game: Record, r: Record, next: Record, log: seq<nat>, m: nat)
    requires Follows(game, r, log)
    requires r == Record(next.outcome, next.board, [m] + next.log)
    ensures Follows(game, next, log + [m])
  {
    assert log + ([m] + next.log) == (log + [m]) + next.log;
  }

  // ---------------------------------------------------------------------
  // The imperative engine

  /**
    The `for _ in range(3)` loop of `play_game`: ask the model of the
    player on turn until an answer is accepted, at most three times.
   */
  method AcquireMove(board: array<Cell>, player: Player, propose: Proposer) returns (move: Option<nat>)
    ensures move == Acquire(board[..], player, propose, 0)
    ensures move.Some? ==> move.value < board.Length && board[move.value] == Empty
  {
    move := None;
    for attempt := 0 to MaxAttempts
      invariant move.None?
      invariant Acquire(board[..], player, propose, 0) == Acquire(board[..], player, propose, attempt)
    {
      move := ValidateMove(board[..], propose(board[..], player, attempt));
      if move.Some? {
        break;
      }
    }
  }

  /**
    `play_game` without its display: the board is an array updated in
    place, one accepted move per iteration; the result is the outcome, the
    final board and the moves made, exactly those of `Play`.
   */
  method PlayGame(propose: Proposer) returns (outcome: Outcome, board: seq<Cell>, log: seq<nat>)
    ensures Record(outcome, board, log) == Play(propose)
  {
    var cells := new Cell[Size](_ => Empty);
    var player: Player := X;
    log := [];
    assert cells[..] == NewBoard();
    ghost var game := Play(propose);
    assert [] + game.log == game.log;
    while !Terminal(cells[..])
      invariant cells.Length == Size
      invariant Follows(game, Run(cells[..], player, propose), log)
      decreases |AvailableMoves(cells[..])|
    {
      var move := AcquireMove(cells, player, propose);
      if move.None? {
        RunAbort(cells[..], player, propose);
        outcome, board := Aborted(player), cells[..];
        assert log + [] == log;
        return;
      }
      var m := move.value;
      ghost var before := cells[..];
      cells[m] := player;
      assert cells[..] == before[m := player];
      MarkRemovesOneMove(before, m, player);
      RunStep(before, player, propose, m);
      FollowsAfterMove(game, Run(before, player, propose), Run(cells[..], Other(player), propose), log, m);
      log := log + [m];
      player := Other(player);
    }
    board := cells[..];
    RunStop(board, player, propose);
    outcome := Classify(board);
    assert log + [] == log;
  }
}
