// The engine object itself: a game whose fields the operations update in
// place, each operation proved to move the state as the value-level rules
// in module Rules prescribe.

module Engine {
  import opened Board
  import opened Groups
  import opened Captures
  import opened Territory
  import opened Rules

  /** The score pair the engine reports: each colour's captures plus, once scored, its territory. */
  datatype Score = Score(black: nat, white: nat)

  /** What getGameState hands out. */
  datatype Snapshot = Snapshot(board: Grid, currentPlayer: int, gameOver: bool, score: Score)

  class Game {
    var board: Grid
    var currentPlayer: int
    var lastMove: Option<Pos>
    var koPoint: Option<Pos>
    var moveHistory: seq<Pos>
    var capturedBlack: nat
    var capturedWhite: nat
    var gameOver: bool
    var passes: nat

    /** The fields as one value of the rules' state. */
    ghost function State(): GameState
      reads this
    {
      GameState(board, currentPlayer, lastMove, koPoint, moveHistory, capturedBlack, capturedWhite, gameOver, passes)
    }

    ghost predicate Valid()
      reads this
    {
      ValidState(State())
    }

    /** A new engine holds a fresh game. */
    constructor()
      ensures Valid() && State() == Initial()
    {
      board := [];
      currentPlayer := Black;
      lastMove := None;
      koPoint := None;
      moveHistory := [];
      capturedBlack, capturedWhite := 0, 0;
      gameOver := false;
      passes := 0;
      new;
      InitializeBoard();
    }

    /** initializeBoard: every cell empty; nothing else changes. */
    method InitializeBoard()
      modifies this`board
      ensures board == EmptyBoard()
      ensures IsBoard(board) && forall q :: InBounds(q) ==> At(board, q) == Empty
    {
      board := EmptyBoard();
    }

    function GetBoard(): Grid
      reads this
    {
      board
    }

    function GetCurrentPlayer(): int
      reads this
    {
      currentPlayer
    }

    function GetKoPoint(): Option<Pos>
      reads this
    {
      koPoint
    }

    function GetLastMove(): Option<Pos>
      reads this
    {
      lastMove
    }

    function GetScore(): Score
      reads this
    {
      Score(capturedBlack, capturedWhite)
    }

    function IsGameOver(): bool
      reads this
    {
      gameOver
    }

    /** getGameState: the board, the player to move, the game-over flag and the score, as getScore reports it. */
    function GetGameState(): (r: Snapshot)
      reads this
      ensures Valid() ==> IsBoard(r.board) && (r.currentPlayer == Black || r.currentPlayer == White)
      ensures r.score == GetScore()
    {
      Snapshot(board, currentPlayer, gameOver, Score(capturedBlack, capturedWhite))
    }

    /**
     * isSuicideMove: puts the current player's stone on the empty cell,
     * asks whether it captures nothing and its group has no liberty, and
     * empties the cell again.
     */
    method IsSuicideMove(row: int, col: int) returns (suicide: bool)
      requires Valid() && IsValidPosition(row, col) && board[row][col] == Empty
      modifies this`board
      ensures board == old(board)
      ensures suicide == Suicide(board, Pos(row, col), currentPlayer)
    {
      var p := Pos(row, col);
      board := SetCell(board, p, currentPlayer);
      var captured := FindCapturedStones(board, p, currentPlayer);
      suicide := false;
      if |captured| == 0 {
        var group := FindGroup(board, p);
        var liberties := CountLiberties(board, group);
        assert (set q | q in group) == Group(board, p);
        if liberties == 0 {
          suicide := true;
        }
      }
      board := SetCell(board, p, Empty);
      SetCellRestore(old(board), p, currentPlayer);
    }

    /** isValidMove: in bounds, empty and not suicide for the current player; the board is left as it was. */
    method IsValidMove(row: int, col: int) returns (valid: bool)
      requires Valid()
      modifies this`board
      ensures board == old(board)
      ensures valid == Legal(board, Pos(row, col), currentPlayer)
    {
      if !IsValidPosition(row, col) {
        return false;
      }
      if board[row][col] != Empty {
        return false;
      }
      var suicide := IsSuicideMove(row, col);
      if suicide {
        return false;
      }
      return true;
    }

    /**
     * The removal loop of makeMove: empties each listed cell and adds one to
     * the mover's tally per entry, duplicates included.
     */
    method RemoveCaptured(captured: seq<Pos>, ghost cells: set<Pos>)
      requires IsBoard(board) && forall q :: q in captured <==> q in cells
      requires forall q :: q in cells ==> InBounds(q)
      modifies this`board, this`capturedBlack, this`capturedWhite
      ensures IsBoard(board)
      ensures forall q :: InBounds(q) ==> At(board, q) == if q in cells then Empty else At(old(board), q)
      ensures currentPlayer == Black ==> capturedBlack == old(capturedBlack) + |captured| && capturedWhite == old(capturedWhite)
      ensures currentPlayer != Black ==> capturedWhite == old(capturedWhite) + |captured| && capturedBlack == old(capturedBlack)
    {
      for i := 0 to |captured|
        invariant IsBoard(board)
        invariant forall q :: InBounds(q) ==> At(board, q) == if q in captured[..i] then Empty else At(old(board), q)
        invariant currentPlayer == Black ==> capturedBlack == old(capturedBlack) + i && capturedWhite == old(capturedWhite)
        invariant currentPlayer != Black ==> capturedWhite == old(capturedWhite) + i && capturedBlack == old(capturedBlack)
      {
        var pos := captured[i];
        assert forall q :: q in captured[..i + 1] <==> q in captured[..i] || q == pos by {
          assert captured[..i + 1] == captured[..i] + [pos];
        }
        board := SetCell(board, pos, Empty);
        if currentPlayer == Black {
          capturedBlack := capturedBlack + 1;
        } else {
          capturedWhite := capturedWhite + 1;
        }
      }
      assert captured[..|captured|] == captured;
    }

    /**
     * makeMove: refused when the game is over, the move is illegal or it
     * is at the ko point; otherwise the stone is placed, the captured
     * groups are removed and counted, the ko point is recomputed, the move
     * is recorded and the turn passes.
     */
    method MakeMove(row: int, col: int) returns (ok: bool)
      requires Valid()
      modifies this
      ensures Valid()
      ensures ok == Accepts(old(State()), Pos(row, col))
      ensures State() == AfterMove(old(State()), Pos(row, col))
    {
      if gameOver {
        return false;
      }
      passes := 0;
      var valid := IsValidMove(row, col);
      if !valid {
        return false;
      }
      var p := Pos(row, col);
      if koPoint == Some(p) {
        SetCellSame(board, p);
        board := SetCell(board, p, Empty);
        return false;
      }
      PlaceStone(p);
      return true;
    }

    /**
     * The part of makeMove after the checks: the stone goes down, the
     * captured groups are found and the (unreachable) suicide re-check is
     * made before the move is resolved.
     */
    method PlaceStone(p: Pos)
      requires Valid() && Accepts(State(), p) && passes == 0
      modifies this
      ensures State() == AfterMove(old(State()), p)
    {
      board := SetCell(board, p, currentPlayer);
      var captured := FindCapturedStones(board, p, currentPlayer);
      if |captured| == 0 {
        var group := FindGroup(board, p);
        var liberties := CountLiberties(board, group);
        if liberties == 0 {
          // Unreachable: isValidMove has just refused exactly this suicide.
          assert false;
        }
      }
      ResolveMove(p, captured);
    }

    /**
     * The end of makeMove, with the new stone at `p` already on the board
     * and `captured` the list findCapturedStones gave: the ko point is
     * recomputed, the captured cells are emptied and counted, the move is
     * recorded and the turn passes.
     */
    method ResolveMove(p: Pos, captured: seq<Pos>)
      requires IsBoard(board) && InBounds(p)
      requires forall q :: q in captured <==> q in CaptureSet(board, p, currentPlayer)
      requires |captured| == CaptureCount(board, p, currentPlayer)
      modifies this
      ensures board == ClearCells(old(board), CaptureSet(old(board), p, old(currentPlayer)))
      ensures koPoint == KoAfter(old(board), p, old(currentPlayer))
      ensures currentPlayer == Opponent(old(currentPlayer)) && lastMove == Some(p) && moveHistory == old(moveHistory) + [p]
      ensures capturedBlack == if old(currentPlayer) == Black then old(capturedBlack) + |captured| else old(capturedBlack)
      ensures capturedWhite == if old(currentPlayer) == Black then old(capturedWhite) else old(capturedWhite) + |captured|
      ensures gameOver == old(gameOver) && passes == old(passes)
    {
      ghost var s0 := State();
      var mover := currentPlayer;
      UpdateKoPoint(p, captured);
      ghost var cells := CaptureSet(board, p, mover);
      forall q | q in cells
        ensures InBounds(q)
      {
        CaptureSetShape(s0.board, p, mover, q);
      }
      RemoveCaptured(captured, cells);
      BoardExt(board, ClearCells(s0.board, cells));
      lastMove := Some(p);
      moveHistory := moveHistory + [p];
      currentPlayer := if currentPlayer == Black then White else Black;
    }

    /**
     * The ko step of makeMove, on the board with the new stone at `p` and
     * nothing removed yet: the ko point is the captured cell when exactly
     * one is listed and the new stone is a lone stone without liberties,
     * and none otherwise.
     */
    method UpdateKoPoint(p: Pos, captured: seq<Pos>)
      requires IsBoard(board) && InBounds(p)
      requires forall q :: q in captured <==> q in CaptureSet(board, p, currentPlayer)
      requires |captured| == CaptureCount(board, p, currentPlayer)
      modifies this`koPoint
      ensures koPoint == KoAfter(board, p, currentPlayer)
    {
      koPoint := None;
      if |captured| == 1 {
        var lastGroup := FindGroup(board, p);
        if |lastGroup| == 1 {
          var liberties := CountLiberties(board, lastGroup);
          assert (set q | q in lastGroup) == Group(board, p);
          if liberties == 0 {
            KoAfterIs(board, p, currentPlayer, captured[0]);
            koPoint := Some(captured[0]);
          }
        }
      }
    }

    /** endGame: the game is over and each colour's territory is added to its score. */
    method EndGame()
      requires Valid()
      modifies this
      ensures Valid() && State() == Rules.EndGame(old(State()))
    {
      gameOver := true;
      var black, white := CalculateTerritory(board);
      capturedBlack := capturedBlack + black;
      capturedWhite := capturedWhite + white;
    }

    /** pass: counts the pass and hands over the turn; from the second consecutive pass on, ends the game. */
    method Pass()
      requires Valid()
      modifies this
      ensures Valid() && State() == AfterPass(old(State()))
    {
      passes := passes + 1;
      currentPlayer := if currentPlayer == Black then White else Black;
      if passes >= 2 {
        EndGame();
      }
    }

    /** resign: the game is over and the resigning player's opponent is named as the current player. */
    method Resign(player: int)
      requires Valid()
      modifies this
      ensures Valid() && State() == AfterResign(old(State()), player)
    {
      gameOver := true;
      currentPlayer := if player == Black then White else Black;
    }

    /** resetGame: a fresh game. */
    method ResetGame()
      modifies this
      ensures Valid() && State() == Initial()
    {
      board := EmptyBoard();
      currentPlayer := Black;
      lastMove := None;
      koPoint := None;
      moveHistory := [];
      capturedBlack, capturedWhite := 0, 0;
      gameOver := false;
      passes := 0;
    }

    /** The replay loop of undoMove: makeMove for each of `moves`, in order. */
    method ReplayMoves(moves: seq<Pos>)
      requires Valid()
      modifies this
      ensures Valid() && State() == Replay(old(State()), moves)
    {
      for i := 0 to |moves|
        invariant Valid() && State() == Replay(old(State()), moves[..i])
      {
        assert moves[..i + 1][..i] == moves[..i];
        var _ := MakeMove(moves[i].row, moves[i].col);
      }
      assert moves[..|moves|] == moves;
    }

    /**
     * undoMove as written: on an empty history it refuses; otherwise it
     * drops the last move and resets the game, which also empties the
     * history, and only then copies the history to replay, so nothing is
     * replayed and every undo is a full reset.
     */
    method UndoMove() returns (ok: bool)
      requires Valid()
      modifies this
      ensures Valid()
      ensures ok == (old(moveHistory) != [])
      ensures !ok ==> State() == old(State())
      ensures ok ==> State() == Initial()
    {
      if |moveHistory| == 0 {
        return false;
      }
      moveHistory := moveHistory[..|moveHistory| - 1];
      ResetGame();
      var moves := moveHistory;
      moveHistory := [];
      ReplayMoves(moves);
      return true;
    }

    /**
     * undoMove as evidently intended: the history minus its last move is
     * kept aside before the reset and replayed onto the fresh game.
     */
    method UndoMoveReplay() returns (ok: bool)
      requires Valid()
      modifies this
      ensures Valid()
      ensures ok == (old(moveHistory) != [])
      ensures !ok ==> State() == old(State())
      ensures ok ==> State() == Replay(Initial(), old(moveHistory)[..|old(moveHistory)| - 1])
    {
      if |moveHistory| == 0 {
        return false;
      }
      var moves := moveHistory[..|moveHistory| - 1];
      ResetGame();
      ReplayMoves(moves);
      return true;
    }
  }
}
