# A verified model of the Go rules engine

This project models `GameService`, the rules engine of a small Go (weiqi)
application. The engine keeps:

- a 19 x 19 board whose cells hold 0 (empty), 1 (black) or 2 (white);
- the player to move;
- the last move and the ko point;
- the history of placed stones;
- one capture tally per colour;
- a pass counter and a game-over flag.

It places stones with capture, suicide and ko checks. It handles passes,
resignation, reset and undo, and at the end it scores territory by flooding
the empty regions.

The model is split into six modules:

- `Board` (board.dfy) holds the grid, positions, neighbours and single-cell
  updates, all as values.
- `Groups` (groups.dfy) defines a group as the least set that contains a cell
  and is closed under same-coloured orthogonal adjacency, and defines its
  liberties. `findGroup` and `countLiberties` are modelled as loop methods
  proved against those definitions.
- `Captures` (captures.dfy) specifies and implements `findCapturedStones`. It
  tells apart the set of captured cells and the length of the captured list,
  which counts a group twice when the group touches the new stone on two
  sides.
- `Territory` (territory.dfy) specifies region ownership and the territory
  of each colour. It holds the breadth-first `findEmptyRegion`, the
  neighbour tally of `determineRegionOwner` and the row-by-row scan of
  `calculateTerritory`, each proved against the specification.
- `Rules` (rules.dfy) describes the engine's whole state as a value
  (`GameState`) and says on values what every operation does (`AfterMove`,
  `AfterPass`, `EndGame`, `AfterResign`, `Replay`). Its lemmas state the game
  properties: the effect of a successful move, exact captures, ko, rejected
  moves, scoring bounds and replay.
- `Engine` (engine.dfy) is the engine object: a class `Game` whose fields the
  methods update in place. Every public operation except initializeBoard is
  proved to take the state `State()` to the value a `Rules` function
  prescribes. `InitializeBoard` and the removal loop `RemoveCaptured` are
  stated field by field instead: the first sets only the board, the second
  only the board and the two tallies.

The model reproduces the engine's quirks as written:

- `passes` is cleared before a move is validated.
- A group reached through two neighbours counts twice in the tally.
- The ko test runs before the captured stones are removed.
- Once the game is over with at least one pass counted (always the case after two passes in a row), every further pass adds the territory to the tallies again.
- `resign` names the winner only through the player to move; `winner` is never set.
- Passes are not recorded in the history.

## Model

| member | source | states |
|---|---|---|
| Board.At | go/src/app/services/game.service.ts:3-4 | every cell of a well-formed board holds 0, 1 or 2 |
| Board.Opponent | go/src/app/services/game.service.ts:81 | the opponent is always black or white, and for black or white it is the other colour |
| Board.OpponentInvolutive | go/src/app/services/game.service.ts:81 | for black or white, taking the opponent twice gives the colour back |
| Board.Neighbours | go/src/app/services/game.service.ts:84-89 | every cell has exactly four orthogonal candidates, in the order up, down, left, right |
| Board.NeighboursAreAdjacent | go/src/app/services/game.service.ts:84-89 | a cell is a neighbour exactly when it is orthogonally adjacent, and the relation is symmetric |
| Board.AllCells | go/src/app/services/game.service.ts:345-347 | the set of all positions is exactly the positions `isValidPosition` (modelled as Board.IsValidPosition, the bounds test every operation uses) accepts |
| Board.EmptyBoard | go/src/app/services/game.service.ts:109-113 | the fresh board is 19 x 19 with every cell empty |
| Board.SetCell | go/src/app/services/game.service.ts:158 | writing a cell gives a well-formed board with the new value there and every other cell unchanged |
| Board.ClearCells | go/src/app/services/game.service.ts:181-184 | emptying a set of cells empties exactly those cells and keeps all others |
| Board.BoardExt | go/src/app/services/game.service.ts:3-4 | two boards that agree on every cell are equal |
| Board.SetCellSame | go/src/app/services/game.service.ts:149-152 | writing back a cell's own value leaves the board as it was |
| Board.SetCellRestore | go/src/app/services/game.service.ts:231-249 | placing a stone on an empty cell and emptying it again restores the board |
| Groups.GroupHasStart | go/src/app/services/game.service.ts:33-54 | a cell belongs to its own group |
| Groups.GroupSameColour | go/src/app/services/game.service.ts:33-54 | every member of a group is on the board and has the start cell's value |
| Groups.GroupClosed | go/src/app/services/game.service.ts:37-50 | a group already holds every same-valued neighbour of its members |
| Groups.GroupLeast | go/src/app/services/game.service.ts:37-50 | a group lies inside every closed set that holds its start |
| Groups.GroupUnique | go/src/app/services/game.service.ts:33-54 | a set that holds the start, is closed and lies in every closed set holding the start is the group |
| Groups.GroupOfMember | go/src/app/services/game.service.ts:33-54 | every member of a group has that same group, so groups are connected components |
| Groups.GroupsDisjointOrEqual | go/src/app/services/game.service.ts:33-54 | two groups are equal or share no cell |
| Groups.TraceSkip | go/src/app/services/game.service.ts:38-41 | skipping a visited, off-board or differently coloured cell keeps the search invariant |
| Groups.TraceTake | go/src/app/services/game.service.ts:43-49 | visiting a same-coloured cell and exploring its four neighbours keeps the search invariant |
| Groups.FindGroup | go/src/app/services/game.service.ts:33-54 | findGroup lists exactly the cells of the start's group, each once |
| Groups.CountLiberties | go/src/app/services/game.service.ts:56-77 | countLiberties is the number of distinct empty on-board cells next to some listed cell |
| Captures.CapturedViaMembers | go/src/app/services/game.service.ts:91-99 | a cell is captured through a list of neighbours exactly when one of them reaches it |
| Captures.TallyCovers | go/src/app/services/game.service.ts:91-99 | the captured list is never shorter than the set of captured cells, and it is empty exactly when that set is |
| Captures.CaptureSetShape | go/src/app/services/game.service.ts:79-103 | every captured cell is an opponent stone whose whole group has no liberty and touches the new stone |
| Captures.CaptureComplete | go/src/app/services/game.service.ts:79-103 | every opponent group next to the new stone that has no liberty is captured whole |
| Captures.CaptureCountCovers | go/src/app/services/game.service.ts:79-103 | the length of the captured list bounds the captured cells from above and is zero exactly when nothing is captured |
| Captures.CapturedNear | go/src/app/services/game.service.ts:91-99 | for one neighbour, the callback yields that neighbour's group when it is an opponent group without liberties, and nothing otherwise |
| Captures.CollectStep | go/src/app/services/game.service.ts:91-99 | appending one neighbour's yield keeps the list equal to the captures through the neighbours seen so far |
| Captures.FindCapturedStones | go/src/app/services/game.service.ts:79-103 | findCapturedStones returns exactly the captured cells, with a length equal to the tally including duplicates |
| Territory.RegionAvoids | go/src/app/services/game.service.ts:266-267 | an empty region outside a union of whole regions shares no cell with it |
| Territory.RegionsPartition | go/src/app/services/game.service.ts:261-280 | the empty regions partition the empty cells, and territory is credited by whole regions |
| Territory.TerritoryBound | go/src/app/services/game.service.ts:261-280 | black and white territory are disjoint and together at most the number of empty cells |
| Territory.CreditStep | go/src/app/services/game.service.ts:268-273 | adding one more whole region adds its size to exactly its owner's credit |
| Territory.ClosedBeside | go/src/app/services/game.service.ts:283-316 | cells apart from visited whole regions whose empty neighbours stay among them are closed on their own |
| Territory.RegionUnionAdd | go/src/app/services/game.service.ts:268 | the visited cells plus a whole region are still a union of whole regions |
| Territory.FrontierTouches | go/src/app/services/game.service.ts:318-343 | a region borders a colour exactly when one of its cells has a neighbour of that colour |
| Territory.CountNeighbourStones | go/src/app/services/game.service.ts:321-334 | the inner tally rises for a colour exactly when the cell touches a stone of that colour |
| Territory.DetermineRegionOwner | go/src/app/services/game.service.ts:318-343 | determineRegionOwner names black when the region borders black and not white, white symmetrically, and 0 otherwise |
| Territory.EnqueueNeighbours | go/src/app/services/game.service.ts:298-311 | the queue gains exactly the on-board, unvisited, empty neighbours of the current cell |
| Territory.SearchSkip | go/src/app/services/game.service.ts:289-292 | dropping an already visited cell keeps the search invariant |
| Territory.SearchHead | go/src/app/services/game.service.ts:289-293 | an unvisited queued cell is an empty on-board cell not yet taken, and visiting it shrinks the unvisited cells |
| Territory.SearchTake | go/src/app/services/game.service.ts:293-312 | taking the head and queueing its fresh empty neighbours keeps the search invariant |
| Territory.SearchDone | go/src/app/services/game.service.ts:287-315 | when the queue runs dry, the cells taken are exactly the start's empty region |
| Territory.FindEmptyRegion | go/src/app/services/game.service.ts:283-316 | findEmptyRegion returns the start's empty region, each cell once, and adds exactly it to the visited set |
| Territory.ScanRegion | go/src/app/services/game.service.ts:267-274 | scanning an unvisited empty cell credits its whole region to its owner and keeps the scan invariant |
| Territory.ScanSkip | go/src/app/services/game.service.ts:267 | scanning a stone or a visited cell keeps the scan invariant |
| Territory.ScanComplete | go/src/app/services/game.service.ts:265-279 | after the whole board, the counts are the black and the white territory |
| Territory.CalculateTerritory | go/src/app/services/game.service.ts:261-280 | calculateTerritory returns the sizes of black's and white's territory |
| Rules.AfterMove | go/src/app/services/game.service.ts:135-198 | every state a move leads to from a valid state is valid: well-formed board, a real player to move, a ko point on an empty cell |
| Rules.EndGame | go/src/app/services/game.service.ts:253-258 | ending the game keeps the state valid |
| Rules.AfterPass | go/src/app/services/game.service.ts:201-209 | a pass keeps the state valid |
| Rules.AfterResign | go/src/app/services/game.service.ts:374-378 | after a resignation the game is over and the player to move is black or white but not the one who resigned; the board, both tallies, the history, the ko point, the last move and the pass count are kept, so resigning scores nothing |
| Rules.Replay | go/src/app/services/game.service.ts:368-370 | replaying moves from a valid state keeps it valid |
| Rules.KoAfter | go/src/app/services/game.service.ts:172-179 | a ko point is always a captured, on-board cell |
| Rules.SuccessfulMove | go/src/app/services/game.service.ts:157-197 | an accepted move puts the mover's stone at the target and empties exactly the captured opponent stones. No other cell changes. It appends the move to the history, sets the last move and hands over the turn. Only the mover's tally grows, by the captured list's length, which is at least the number of stones removed |
| Rules.CapturesExact | go/src/app/services/game.service.ts:79-103 | a cell is emptied by an accepted move exactly when it is in an opponent group next to the new stone that has no liberty after the placement |
| Rules.KoShape | go/src/app/services/game.service.ts:149-152 | when a move sets the ko point, it is the single captured cell, a now-empty neighbour, and the lone capturing stone has it as its one liberty. A move there on the next turn is refused |
| Rules.KoPlaced | go/src/app/services/game.service.ts:172-179 | a ko point is the one captured cell next to the new stone, and every other neighbour holds an opposing stone |
| Rules.LoneStone | go/src/app/services/game.service.ts:181-184 | emptying the ko cell leaves the capturing stone as a one-stone group with exactly that liberty |
| Rules.KoAfterIs | go/src/app/services/game.service.ts:172-179 | when the ko condition holds, the ko point is the single captured cell |
| Rules.RejectedMove | go/src/app/services/game.service.ts:135-152 | a refused move changes nothing but the pass counter, which is cleared while the game is on |
| Rules.FirstMoveAccepted | go/src/app/services/game.service.ts:212-229 | on the empty board every on-board move is accepted |
| Rules.ReplayHistory | go/src/app/services/game.service.ts:192-193 | replaying only accepted moves records exactly those moves |
| Rules.AcceptedHistory | go/src/app/services/game.service.ts:193 | an accepted move appends its cell to the history |
| Rules.DoublePassScores | go/src/app/services/game.service.ts:201-209 | two passes in a row end the game with the same player to move, never lower a tally, and from a pass-free start add at most the empty cells |
| Rules.PassAfterEndRescores | go/src/app/services/game.service.ts:201-209 | once the game is over with at least one pass counted, a further pass adds each colour's territory to its tally again, because pass never reads the game-over flag |
| Rules.PassFlips | go/src/app/services/game.service.ts:201-209 | one pass hands the turn to the other colour, counts the pass, leaves board and history alone, and the game is over afterwards exactly when it was before or this is at least the second pass in a row |
| Rules.UndoHistory | go/src/app/services/game.service.ts:356-373 | replaying an accepted history minus its last move records exactly that shortened history |
| Rules.UndoKeepsFirstMove | go/src/app/services/game.service.ts:356-373 | replaying the one-move history that remains after undoing the second of two moves keeps the first stone, so the result is not the fresh game |
| Engine.Game.constructor | go/src/app/services/game.service.ts:105-107 | a new engine holds the fresh game |
| Engine.Game.InitializeBoard | go/src/app/services/game.service.ts:109-113 | the board becomes the all-empty 19 x 19 board |
| Engine.Game.GetGameState | go/src/app/services/game.service.ts:115-125 | on a valid engine the snapshot's board is a well-formed 19 x 19 grid of stones and its player to move is black or white, as the `GameState` type promises; the score is the one getScore reports |
| Engine.Game.IsSuicideMove | go/src/app/services/game.service.ts:231-250 | the answer is whether the stone would capture nothing and leave its group without a liberty, and the board is restored |
| Engine.Game.IsValidMove | go/src/app/services/game.service.ts:212-229 | the answer is on-board, empty and not suicide, and the board is unchanged |
| Engine.Game.RemoveCaptured | go/src/app/services/game.service.ts:181-189 | every listed cell is emptied, every other cell kept, and the mover's tally grows by the list's length |
| Engine.Game.MakeMove | go/src/app/services/game.service.ts:135-198 | makeMove succeeds exactly when the rules accept the move, and the new state is the one the rules prescribe |
| Engine.Game.PlaceStone | go/src/app/services/game.service.ts:157-197 | placing an accepted stone and resolving it yields the rules' state after the move |
| Engine.Game.ResolveMove | go/src/app/services/game.service.ts:172-197 | the board loses the captured cells and the ko point is recomputed. The tallies grow by the list's length, the move is recorded and the turn passes; the game-over flag and the pass count are kept |
| Engine.Game.UpdateKoPoint | go/src/app/services/game.service.ts:172-179 | the ko point becomes the one the rules define for the board before removal |
| Engine.Game.EndGame | go/src/app/services/game.service.ts:253-258 | the game is over and each colour's territory is added to its tally |
| Engine.Game.Pass | go/src/app/services/game.service.ts:201-209 | the pass count and turn change as the rules prescribe, ending the game from the second pass on |
| Engine.Game.Resign | go/src/app/services/game.service.ts:374-378 | the game is over and the resigning player's opponent is to move |
| Engine.Game.ResetGame | go/src/app/services/game.service.ts:380-389 | the state is the fresh game |
| Engine.Game.ReplayMoves | go/src/app/services/game.service.ts:368-370 | making each move in order yields the rules' replay |
| Engine.Game.UndoMove | go/src/app/services/game.service.ts:356-373 | as written: refuses on an empty history, and otherwise always ends in the fresh game |
| Engine.Game.UndoMoveReplay | go/src/app/services/game.service.ts:356-373 | as intended: otherwise ends in the replay of the history minus its last move from the fresh game |

## Left out

- Angular's `@Injectable` decorator and dependency injection are left out. The engine is a plain class.
- The AI move ranking and the board component are not part of this model. They only call the engine.
- Positions in the visited sets are kept as `(row, col)` values. The source encodes them as `"row,col"` strings, which is the same identity.
- Boards and scores are values. The source's getters return live references that a caller could mutate (aliasing), which this model does not capture.
- Engine.Game.GetBoard, GetCurrentPlayer, GetKoPoint, GetLastMove, GetScore and IsGameOver are plain field reads without contracts.
- Groups.FindGroup: explores with an explicit stack instead of the recursive `explore` closure. It proves the set of members and their count, not the order in which the source lists them.
- Territory.FindEmptyRegion: returns the updated visited set instead of mutating the caller's set in place.
- Row and column arguments are mathematical integers. The source's JavaScript numbers could be fractional or non-finite, and the model does not cover those.
- Engine.Game.MakeMove: requires a valid state (a well-formed board, black or white to move, a ko point on an empty cell). Every state the engine builds satisfies this.
- Engine.Game.Resign: a `player` other than 1 hands the turn to black, as `player === 1 ? 2 : 1` does. The never-set `winner` field of the snapshot is not modelled.

## Findings

| source | as written | input that shows it | evidently intended | confidence | as-written member | corrected member |
|---|---|---|---|---|---|---|
| go/src/app/services/game.service.ts:356-373 | `resetGame` empties the move history before `moves` is copied from it, so nothing is replayed and every undo resets the whole game | black plays (0,0), white plays (18,18), then undo: the board is empty, while undoing one move should leave black's stone at (0,0) and a history of one move | keep the history minus its last move, reset, then replay it | not executed | Engine.Game.UndoMove, Rules.UndoKeepsFirstMove | Engine.Game.UndoMoveReplay, Rules.UndoHistory |
