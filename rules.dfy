// The game-level rules of the engine, stated on values: legality, the
// outcome of a placement (captures, ko point, tallies, history, turn), of a
// pass, a resignation and a reset, and the replay of a move list.

module Rules {
  import opened Board
  import opened Groups
  import opened Captures
  import opened Territory

  /** Everything the engine keeps between calls. */
  datatype GameState = GameState(
    board: Grid,
    player: int,
    lastMove: Option<Pos>,
    koPoint: Option<Pos>,
    history: seq<Pos>,
    black: nat,
    white: nat,
    gameOver: bool,
    passes: nat)

  /** A well-formed board, a player who is black or white, and a ko point that is an empty cell. */
  ghost predicate ValidState(s: GameState) {
    IsBoard(s.board) &&
    (s.player == Black || s.player == White) &&
    (s.koPoint.Some? ==> InBounds(s.koPoint.value) && At(s.board, s.koPoint.value) == Empty) &&
    (s.lastMove.Some? ==> InBounds(s.lastMove.value))
  }

  /** A fresh game: empty board, black to play, nothing recorded. */
  function Initial(): GameState {
    GameState(EmptyBoard(), Black, None, None, [], 0, 0, false, 0)
  }

  /** Placing `player` at `p` captures nothing and leaves the new group without a liberty. */
  ghost predicate Suicide(b: Grid, p: Pos, player: int)
    requires IsBoard(b) && InBounds(p) && IsStone(player)
  {
    var placed := SetCell(b, p, player);
    CaptureCount(placed, p, player) == 0 && Liberties(placed, Group(placed, p)) == {}
  }

  /** isValidMove: in bounds, on an empty cell, and not suicide. */
  ghost predicate Legal(b: Grid, p: Pos, player: int)
    requires IsBoard(b) && IsStone(player)
  {
    InBounds(p) && At(b, p) == Empty && !Suicide(b, p, player)
  }

  /** makeMove succeeds: the game is on, the move is legal and it is not at the ko point. */
  ghost predicate Accepts(s: GameState, p: Pos)
    requires ValidState(s)
  {
    !s.gameOver && Legal(s.board, p, s.player) && s.koPoint != Some(p)
  }

  /**
   * The ko point after a placement at `p` on the board `placed` (the stone
   * already down, nothing removed yet): the single captured cell when the
   * captured list has length one and the placed stone is a lone stone with
   * no liberty; otherwise none.
   */
  ghost function KoAfter(placed: Grid, p: Pos, player: int): (ko: Option<Pos>)
    requires IsBoard(placed) && InBounds(p)
    ensures ko.Some? ==> ko.value in CaptureSet(placed, p, player) && InBounds(ko.value)
  {
    if CaptureCount(placed, p, player) == 1 && |Group(placed, p)| == 1 && Liberties(placed, Group(placed, p)) == {} then
      CaptureCountCovers(placed, p, player);
      var q :| q in CaptureSet(placed, p, player);
      CaptureSetShape(placed, p, player, q);
      Some(q)
    else
      None
  }

  /**
   * The rest of an accepted placement at `p`, from the state whose board
   * already holds the new stone, given the captured cells, the length of
   * the captured list and the new ko point: the captured cells are
   * emptied, the turn passes, the move is recorded and the list's length
   * goes to the mover's tally.
   */
  ghost function Resolve(s: GameState, p: Pos, captured: set<Pos>, n: nat, ko: Option<Pos>): GameState
    requires IsBoard(s.board)
  {
    s.(board := ClearCells(s.board, captured),
       player := Opponent(s.player),
       lastMove := Some(p),
       koPoint := ko,
       history := s.history + [p],
       black := if s.player == Black then s.black + n else s.black,
       white := if s.player == Black then s.white else s.white + n,
       passes := 0)
  }

  /** makeMove: the state after an attempt to place the current player's stone at `p`. */
  ghost function AfterMove(s: GameState, p: Pos): (r: GameState)
    requires ValidState(s)
    ensures ValidState(r)
  {
    if s.gameOver then s
    else if !Accepts(s, p) then s.(passes := 0)
    else
      var placed := SetCell(s.board, p, s.player);
      Resolve(s.(board := placed), p, CaptureSet(placed, p, s.player), CaptureCount(placed, p, s.player),
              KoAfter(placed, p, s.player))
  }

  /** endGame: the game is over and each colour's territory is added to its tally. */
  ghost function EndGame(s: GameState): (r: GameState)
    requires ValidState(s)
    ensures ValidState(r)
  {
    s.(gameOver := true,
       black := s.black + |TerritoryOf(s.board, Black)|,
       white := s.white + |TerritoryOf(s.board, White)|)
  }

  /** pass: the turn passes; from the second consecutive pass on the game ends and is scored. */
  ghost function AfterPass(s: GameState): (r: GameState)
    requires ValidState(s)
    ensures ValidState(r)
  {
    var s1 := s.(passes := s.passes + 1, player := Opponent(s.player));
    if s1.passes >= 2 then EndGame(s1) else s1
  }

  /** resign: the game is over and the turn goes to the resigning player's opponent. */
  function AfterResign(s: GameState, resigning: int): (r: GameState)
    ensures r.gameOver && r.player != resigning && r.board == s.board
    ensures r.player == Black || r.player == White
    ensures r.black == s.black && r.white == s.white && r.history == s.history
    ensures r.koPoint == s.koPoint && r.lastMove == s.lastMove && r.passes == s.passes
  {
    s.(gameOver := true, player := Opponent(resigning))
  }

  /** The state after attempting each of `moves` in order, as makeMove does. */
  ghost function Replay(s: GameState, moves: seq<Pos>): (r: GameState)
    requires ValidState(s)
    ensures ValidState(r)
  {
    if moves == [] then s else AfterMove(Replay(s, moves[..|moves| - 1]), moves[|moves| - 1])
  }

  /** Every move of `moves` is accepted when replayed from `s`. */
  ghost predicate ReplayAccepts(s: GameState, moves: seq<Pos>)
    requires ValidState(s)
  {
    moves == [] ||
    (ReplayAccepts(s, moves[..|moves| - 1]) && Accepts(Replay(s, moves[..|moves| - 1]), moves[|moves| - 1]))
  }

  /**
   * A successful placement puts the mover's stone at `p`, empties exactly the
   * captured cells (opponent stones before the move), leaves every other
   * cell alone, records `p`, hands the turn over and adds the captured
   * list's length, never less than the number of stones removed, to the
   * mover's tally.
   */
  lemma SuccessfulMove(s: GameState, p: Pos)
    requires ValidState(s) && Accepts(s, p)
    ensures var r := AfterMove(s, p);
            var placed := SetCell(s.board, p, s.player);
            var captured := CaptureSet(placed, p, s.player);
            && InBounds(p) && p !in captured
            && At(r.board, p) == s.player
            && (forall q :: q in captured ==> InBounds(q) && At(s.board, q) == Opponent(s.player) && At(r.board, q) == Empty)
            && (forall q :: InBounds(q) && q != p && q !in captured ==> At(r.board, q) == At(s.board, q))
            && r.history == s.history + [p] && r.lastMove == Some(p)
            && r.player != s.player && (r.player == Black || r.player == White)
            && r.black + r.white == s.black + s.white + CaptureCount(placed, p, s.player)
            && CaptureCount(placed, p, s.player) >= |captured|
            && (s.player == Black ==> r.white == s.white)
            && (s.player == White ==> r.black == s.black)
  {
    var placed := SetCell(s.board, p, s.player);
    forall q | q in CaptureSet(placed, p, s.player)
      ensures InBounds(q) && q != p && At(s.board, q) == Opponent(s.player)
    {
      CaptureSetShape(placed, p, s.player, q);
    }
    CaptureCountCovers(placed, p, s.player);
  }

  /**
   * The cells a successful placement empties are exactly the opponent
   * groups next to `p` that have no liberty once the stone is down.
   */
  lemma CapturesExact(s: GameState, p: Pos)
    requires ValidState(s) && Accepts(s, p)
    ensures var r := AfterMove(s, p);
            var placed := SetCell(s.board, p, s.player);
            forall q :: InBounds(q) ==>
              ((At(s.board, q) != Empty && At(r.board, q) == Empty) <==>
               exists n :: n in Neighbours(p) && InBounds(n) && At(placed, n) == Opponent(s.player) &&
                           Liberties(placed, Group(placed, n)) == {} && q in Group(placed, n))
  {
    var r := AfterMove(s, p);
    var placed := SetCell(s.board, p, s.player);
    forall q | InBounds(q)
      ensures (At(s.board, q) != Empty && At(r.board, q) == Empty) <==>
              exists n :: n in Neighbours(p) && InBounds(n) && At(placed, n) == Opponent(s.player) &&
                          Liberties(placed, Group(placed, n)) == {} && q in Group(placed, n)
    {
      if At(s.board, q) != Empty && At(r.board, q) == Empty {
        assert q != p;
        CaptureSetShape(placed, p, s.player, q);
        var n :| n in Neighbours(p) && InBounds(n) && q in Group(placed, n);
        GroupOfMember(placed, n, q);
        GroupSameColour(placed, n);
      }
      if n :| n in Neighbours(p) && InBounds(n) && At(placed, n) == Opponent(s.player) &&
              Liberties(placed, Group(placed, n)) == {} && q in Group(placed, n) {
        CaptureComplete(placed, p, s.player, n);
        GroupSameColour(placed, n);
      }
    }
  }

  /**
   * When a placement sets the ko point, it is the one captured cell, a
   * neighbour of `p`, now empty; the capturing stone stands alone with that
   * cell as its only liberty; and a move there is refused on the next turn.
   */
  lemma KoShape(s: GameState, p: Pos)
    requires ValidState(s) && Accepts(s, p)
    requires AfterMove(s, p).koPoint.Some?
    ensures var r := AfterMove(s, p);
            var k := r.koPoint.value;
            var placed := SetCell(s.board, p, s.player);
            && k in Neighbours(p) && InBounds(k) && At(r.board, k) == Empty
            && CaptureSet(placed, p, s.player) == {k}
            && Group(r.board, p) == {p}
            && Liberties(r.board, {p}) == {k}
            && !Accepts(r, k)
  {
    var r := AfterMove(s, p);
    var k := r.koPoint.value;
    var placed := SetCell(s.board, p, s.player);
    KoPlaced(placed, p, s.player, k);
    assert r.board == ClearCells(placed, {k});
    LoneStone(placed, p, s.player, k);
  }

  /**
   * On the board holding the new stone, a ko point is the one captured cell,
   * a neighbour of `p`, and every other in-bounds neighbour of `p` holds a
   * stone of the other colour.
   */
  lemma KoPlaced(placed: Grid, p: Pos, player: int, k: Pos)
    requires IsBoard(placed) && InBounds(p) && IsStone(player) && At(placed, p) == player
    requires KoAfter(placed, p, player) == Some(k)
    ensures k in Neighbours(p) && InBounds(k)
    ensures CaptureSet(placed, p, player) == {k}
    ensures forall x :: x in Neighbours(p) && InBounds(x) && x != k ==> At(placed, x) != Empty && At(placed, x) != player
  {
    var captured := CaptureSet(placed, p, player);
    // The captured cell is a whole group next to p, and the list has length one.
    CaptureSetShape(placed, p, player, k);
    var n :| n in Neighbours(p) && InBounds(n) && k in Group(placed, n);
    GroupOfMember(placed, n, k);
    GroupHasStart(placed, n);
    CaptureCountCovers(placed, p, player);
    Singleton(captured, k);
    assert n == k by {
      CaptureComplete(placed, p, player, n);
    }
    // p touches no empty cell and no stone of its own colour.
    GroupHasStart(placed, p);
    GroupClosed(placed, p);
    Singleton(Group(placed, p), p);
    forall x | x in Neighbours(p) && InBounds(x) && x != k
      ensures At(placed, x) != Empty && At(placed, x) != player
    {
      assert x !in Liberties(placed, Group(placed, p));
      assert x !in Group(placed, p);
    }
  }

  /**
   * Emptying the neighbour `k` of a stone whose other neighbours are all
   * stones of the other colour leaves that stone alone with `k` as its one
   * liberty.
   */
  lemma LoneStone(placed: Grid, p: Pos, player: int, k: Pos)
    requires IsBoard(placed) && InBounds(p) && (player == Black || player == White) && At(placed, p) == player
    requires k in Neighbours(p) && InBounds(k)
    requires forall x :: x in Neighbours(p) && InBounds(x) && x != k ==> At(placed, x) != Empty && At(placed, x) != player
    ensures var b := ClearCells(placed, {k});
            At(b, k) == Empty && Group(b, p) == {p} && Liberties(b, {p}) == {k}
  {
    var b := ClearCells(placed, {k});
    forall n | n in Neighbours(p) && InBounds(n)
      ensures At(b, n) != player
    {
      if n != k {
        assert At(b, n) == At(placed, n);
      }
    }
    assert Closed(b, {p}, player);
    GroupLeast(b, p, {p});
    GroupHasStart(b, p);
    assert Liberties(b, {p}) == {k};
  }

  /** When the ko condition holds, the ko point is whichever captured cell is named: there is only one. */
  lemma KoAfterIs(placed: Grid, p: Pos, player: int, x: Pos)
    requires IsBoard(placed) && InBounds(p)
    requires CaptureCount(placed, p, player) == 1 && x in CaptureSet(placed, p, player)
    requires |Group(placed, p)| == 1 && Liberties(placed, Group(placed, p)) == {}
    ensures KoAfter(placed, p, player) == Some(x)
  {
    CaptureCountCovers(placed, p, player);
    Singleton(CaptureSet(placed, p, player), x);
  }

  /**
   * A refused move changes nothing but the pass counter, which it clears
   * while the game is on.
   */
  lemma RejectedMove(s: GameState, p: Pos)
    requires ValidState(s) && !Accepts(s, p)
    ensures var r := AfterMove(s, p);
            && r.board == s.board && r.player == s.player && r.koPoint == s.koPoint
            && r.lastMove == s.lastMove && r.history == s.history
            && r.black == s.black && r.white == s.white && r.gameOver == s.gameOver
            && r.passes == (if s.gameOver then s.passes else 0)
  {
  }

  /** A set with at most one element that holds `x` is `{x}`. */
  lemma Singleton(s: set<Pos>, x: Pos)
    requires x in s && |s| <= 1
    ensures s == {x}
  {
    assert |s - {x}| == |s| - 1;
    assert s - {x} == {};
  }

  /** On the empty board every in-bounds move is accepted. */
  lemma FirstMoveAccepted(p: Pos)
    requires InBounds(p)
    ensures Accepts(Initial(), p)
  {
    var placed := SetCell(EmptyBoard(), p, Black);
    var n := if p.row > 0 then Pos(p.row - 1, p.col) else Pos(p.row + 1, p.col);
    assert n in Neighbours(p) && InBounds(n) && n != p;
    GroupHasStart(placed, p);
    assert n in Liberties(placed, Group(placed, p));
  }

  /** Replaying only accepted moves records exactly those moves. */
  lemma {:induction false} ReplayHistory(s: GameState, moves: seq<Pos>)
    requires ValidState(s) && ReplayAccepts(s, moves)
    ensures Replay(s, moves).history == s.history + moves
    ensures |Replay(s, moves).history| == |s.history| + |moves|
  {
    if moves != [] {
      var init := moves[..|moves| - 1];
      var last := moves[|moves| - 1];
      ReplayHistory(s, init);
      AcceptedHistory(Replay(s, init), last);
      assert Replay(s, moves).history == (s.history + init) + [last];
      Snoc(s.history, moves);
    }
  }

  /** Appending a non-empty list is appending all but its last element, then that element. */
  lemma Snoc(h: seq<Pos>, moves: seq<Pos>)
    requires moves != []
    ensures (h + moves[..|moves| - 1]) + [moves[|moves| - 1]] == h + moves
  {
    assert moves[..|moves| - 1] + [moves[|moves| - 1]] == moves;
  }

  /** An accepted placement appends its cell to the history. */
  lemma AcceptedHistory(s: GameState, p: Pos)
    requires ValidState(s) && Accepts(s, p)
    ensures AfterMove(s, p).history == s.history + [p]
  {
  }

  /** Two consecutive passes end the game, and scoring adds at most the empty cells to the tallies. */
  lemma DoublePassScores(s: GameState)
    requires ValidState(s)
    ensures var r := AfterPass(AfterPass(s));
            && r.gameOver
            && r.player == s.player
            && r.black >= s.black && r.white >= s.white
            && (s.passes == 0 ==> r.black + r.white <= s.black + s.white + |EmptyCells(s.board)|)
  {
    TerritoryBound(s.board);
  }

  /**
   * pass does not look at the game-over flag: a pass after the game has
   * ended scores the territory once more.
   */
  lemma PassAfterEndRescores(s: GameState)
    requires ValidState(s) && s.gameOver && s.passes >= 1
    ensures var r := AfterPass(s);
            && r.gameOver && r.board == s.board
            && r.black == s.black + |TerritoryOf(s.board, Black)|
            && r.white == s.white + |TerritoryOf(s.board, White)|
  {
  }

  /**
   * The replay of a history of accepted moves minus its last entry
   * records exactly that shortened history: one move fewer.
   */
  lemma UndoHistory(h: seq<Pos>)
    requires h != [] && ReplayAccepts(Initial(), h)
    ensures Replay(Initial(), h[..|h| - 1]).history == h[..|h| - 1]
    ensures |Replay(Initial(), h[..|h| - 1]).history| == |h| - 1
  {
    ReplayHistory(Initial(), h[..|h| - 1]);
  }

  /**
   * After the two moves `p` then `q`, replaying the history minus its last
   * entry keeps `p` on the board and in the history, so it is not the
   * fresh game.
   */
  lemma UndoKeepsFirstMove(p: Pos)
    requires InBounds(p)
    ensures var r := Replay(Initial(), [p]);
            r.history == [p] && At(r.board, p) == Black && r != Initial()
  {
    FirstMoveAccepted(p);
    assert [p][..0] == [];
    SuccessfulMove(Initial(), p);
  }

  /** One pass hands the turn over, counts the pass and ends the game from the second pass on. */
  lemma PassFlips(s: GameState)
    requires ValidState(s)
    ensures var r := AfterPass(s);
            && r.player != s.player && (r.player == Black || r.player == White)
            && r.passes == s.passes + 1
            && (r.gameOver <==> s.gameOver || s.passes >= 1)
            && r.board == s.board && r.history == s.history
  {
  }
}
