// The board of the Go rules engine: a fixed 19x19 grid of stones, where a
// cell holds 0 (empty), 1 (black) or 2 (white), with bounds checking and
// single-cell updates.

module Board {

  /** The side of the board; fixed when the engine is built. */
  const N: int := 19

  const Empty: int := 0
  const Black: int := 1
  const White: int := 2

  datatype Option<T> = None | Some(value: T)

  /** A board position, row and column; it need not be in bounds. */
  datatype Pos = Pos(row: int, col: int)

  /** Row-major grid of stone values, as the engine's `Stone[][]`. */
  type Grid = seq<seq<int>>

  predicate IsStone(v: int) {
    v == Empty || v == Black || v == White
  }

  /** The grid is N x N and every cell holds a stone value. */
  predicate IsBoard(b: Grid) {
    |b| == N &&
    (forall r :: 0 <= r < N ==> |b[r]| == N) &&
    (forall r, c :: 0 <= r < N && 0 <= c < N ==> IsStone(b[r][c]))
  }

  predicate IsValidPosition(row: int, col: int) {
    0 <= row < N && 0 <= col < N
  }

  predicate InBounds(p: Pos) {
    IsValidPosition(p.row, p.col)
  }

  function At(b: Grid, p: Pos): (v: int)
    requires IsBoard(b) && InBounds(p)
    ensures IsStone(v)
  {
    b[p.row][p.col]
  }

  /** The other colour: for black the opponent is white; for any other value it is black. */
  function Opponent(player: int): (o: int)
    ensures o == Black || o == White
    ensures (player == Black || player == White) ==> o != player
  {
    if player == Black then White else Black
  }

  /** Between the two colours, taking the opponent twice gives the colour back. */
  lemma OpponentInvolutive(player: int)
    requires player == Black || player == White
    ensures Opponent(Opponent(player)) == player
  {
  }

  /** The four orthogonal neighbours, in the order up, down, left, right. */
  function Neighbours(p: Pos): (ns: seq<Pos>)
    ensures |ns| == 4
  {
    [Pos(p.row - 1, p.col), Pos(p.row + 1, p.col), Pos(p.row, p.col - 1), Pos(p.row, p.col + 1)]
  }

  predicate Adjacent(p: Pos, q: Pos) {
    (p.row == q.row && (p.col - q.col == 1 || q.col - p.col == 1)) ||
    (p.col == q.col && (p.row - q.row == 1 || q.row - p.row == 1))
  }

  lemma NeighboursAreAdjacent(p: Pos, q: Pos)
    ensures q in Neighbours(p) <==> Adjacent(p, q)
    ensures q in Neighbours(p) <==> p in Neighbours(q)
  {
  }

  /** Every in-bounds position, once. */
  function AllCells(): (s: set<Pos>)
    ensures forall p :: p in s <==> InBounds(p)
  {
    set r, c | 0 <= r < N && 0 <= c < N :: Pos(r, c)
  }

  /** The board with every cell empty. */
  function EmptyBoard(): (b: Grid)
    ensures IsBoard(b)
    ensures forall p :: InBounds(p) ==> At(b, p) == Empty
  {
    seq(N, _ => seq(N, _ => Empty))
  }

  /** The board with one cell overwritten. */
  function SetCell(b: Grid, p: Pos, v: int): (b': Grid)
    requires IsBoard(b) && InBounds(p) && IsStone(v)
    ensures IsBoard(b')
    ensures At(b', p) == v
    ensures forall q :: InBounds(q) && q != p ==> At(b', q) == At(b, q)
  {
    b[p.row := b[p.row][p.col := v]]
  }

  /** Two boards that agree on every cell are the same board. */
  lemma {:induction false} BoardExt(a: Grid, b: Grid)
    requires IsBoard(a) && IsBoard(b)
    requires forall q :: InBounds(q) ==> At(a, q) == At(b, q)
    ensures a == b
  {
    forall r | 0 <= r < N
      ensures a[r] == b[r]
    {
      forall c | 0 <= c < N
        ensures a[r][c] == b[r][c]
      {
        assert At(a, Pos(r, c)) == At(b, Pos(r, c));
      }
    }
  }

  /** Writing back a cell's own value changes nothing. */
  lemma SetCellSame(b: Grid, p: Pos)
    requires IsBoard(b) && InBounds(p)
    ensures SetCell(b, p, At(b, p)) == b
  {
    BoardExt(SetCell(b, p, At(b, p)), b);
  }

  /** Placing a stone on an empty cell and emptying it again restores the board. */
  lemma SetCellRestore(b: Grid, p: Pos, v: int)
    requires IsBoard(b) && InBounds(p) && IsStone(v) && At(b, p) == Empty
    ensures SetCell(SetCell(b, p, v), p, Empty) == b
  {
    BoardExt(SetCell(SetCell(b, p, v), p, Empty), b);
  }

  /** The board with every in-bounds cell of `s` emptied. */
  function ClearCells(b: Grid, s: set<Pos>): (b': Grid)
    requires IsBoard(b)
    ensures IsBoard(b')
    ensures forall q :: InBounds(q) ==> At(b', q) == if q in s then Empty else At(b, q)
  {
    seq(N, r requires 0 <= r < N => seq(N, c requires 0 <= c < N => if Pos(r, c) in s then Empty else b[r][c]))
  }
}
