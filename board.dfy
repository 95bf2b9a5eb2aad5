/** The packed board of a 7×7 Quoridor game.

    The 7×7 playable cells and the wall slots between them are packed into one
    13×13 grid of integers: a cell (row, col) of the playable board lives at
    packed position (2*row, 2*col), and every position with an odd coordinate
    is a wall slot. A packed position holds 0 when free, 1 or 2 for the token
    of player 1 or 2, and 3 or 4 for a wall segment of player 1 or 2.

    A wall covers three consecutive packed positions and is addressed by its
    orientation and a pair (x, y): a horizontal wall at (x, y) covers row
    2y+1, columns 2x+2 .. 2x+4; a vertical one covers column 2x+1,
    rows 2y+2 .. 2y+4. */
module Board {

  /** Cells per side of the playable board. */
  const Side := 7
  /** Positions per side of the packed board. */
  const Packed := 13

  const Free := 0
  const Player1Wall := 3
  const Player2Wall := 4

  /** A position of the playable board, in cell space (0 .. 6). */
  datatype Cell = Cell(row: int, col: int)

  predicate OnBoard(c: Cell) {
    0 <= c.row < Side && 0 <= c.col < Side
  }

  datatype Direction = Down | Left | Right | Up

  function DRow(d: Direction): int {
    match d
    case Down => 1
    case Up => -1
    case _ => 0
  }

  function DCol(d: Direction): int {
    match d
    case Right => 1
    case Left => -1
    case _ => 0
  }

  /** The cell `k` steps away from `c` in direction `d`. */
  function Shift(c: Cell, d: Direction, k: int): Cell {
    match d
    case Down => Cell(c.row + k, c.col)
    case Left => Cell(c.row, c.col - k)
    case Right => Cell(c.row, c.col + k)
    case Up => Cell(c.row - k, c.col)
  }

  /** The value of the packed board, row by row. */
  type Grid = seq<seq<int>>

  predicate IsGrid(g: Grid) {
    |g| == Packed && forall i :: 0 <= i < Packed ==> |g[i]| == Packed
  }

  predicate InPacked(i: int, j: int) {
    0 <= i < Packed && 0 <= j < Packed
  }

  /** A packed position that is not a token cell. */
  predicate IsSlot(i: int, j: int) {
    i % 2 == 1 || j % 2 == 1
  }

  function EmptyGrid(): (g: Grid)
    ensures IsGrid(g)
    ensures forall i, j {:trigger g[i][j]} :: InPacked(i, j) ==> g[i][j] == Free
  {
    seq(Packed, _ => seq(Packed, _ => Free))
  }

  /** The board with position (i, j) set to `v`. */
  function Put(g: Grid, i: int, j: int, v: int): (h: Grid)
    requires IsGrid(g) && InPacked(i, j)
    ensures IsGrid(h)
    ensures forall a, b {:trigger h[a][b]} :: InPacked(a, b) ==> h[a][b] == if a == i && b == j then v else g[a][b]
  {
    g[i := g[i][j := v]]
  }

  /** The content of the token cell of `c`. */
  function TokenAt(g: Grid, c: Cell): int
    requires IsGrid(g) && OnBoard(c)
  {
    g[2 * c.row][2 * c.col]
  }

  /** A wall, or the wall cursor: orientation and anchor (x is a column, y a row). */
  datatype Wall = Wall(horizontal: bool, x: int, y: int)

  /** Where a wall may stand: the cursor invariant. */
  predicate InBounds(w: Wall) {
    if w.horizontal then -1 <= w.x <= 4 && 0 <= w.y <= 5
    else 0 <= w.x <= 5 && -1 <= w.y <= 4
  }

  /** The i-th of the three packed positions a wall covers. */
  function WallCell(w: Wall, i: int): (p: (int, int))
    requires 0 <= i < 3
    ensures InBounds(w) ==> InPacked(p.0, p.1)
  {
    if w.horizontal then (2 * w.y + 1, 2 * w.x + 2 + i)
    else (2 * w.y + 2 + i, 2 * w.x + 1)
  }

  /** Whether packed position (a, b) is among the first `n` positions of wall `w`. */
  predicate Covers(w: Wall, n: int, a: int, b: int) {
    if w.horizontal then a == 2 * w.y + 1 && 2 * w.x + 2 <= b < 2 * w.x + 2 + n
    else b == 2 * w.x + 1 && 2 * w.y + 2 <= a < 2 * w.y + 2 + n
  }

  /** The board after writing `v` into the first `n` positions of wall `w`, in order. */
  function PutCells(g: Grid, w: Wall, v: int, n: nat): (h: Grid)
    requires IsGrid(g) && InBounds(w) && n <= 3
    ensures IsGrid(h)
    ensures forall a, b {:trigger h[a][b]} :: InPacked(a, b) ==> h[a][b] == if Covers(w, n, a, b) then v else g[a][b]
    decreases n
  {
    if n == 0 then g
    else
      var p := WallCell(w, n - 1);
      Put(PutCells(g, w, v, n - 1), p.0, p.1, v)
  }

  /** The board after writing `v` into all three positions of wall `w`. */
  function PutWall(g: Grid, w: Wall, v: int): (h: Grid)
    requires IsGrid(g) && InBounds(w)
    ensures IsGrid(h)
    ensures forall a, b {:trigger h[a][b]} :: InPacked(a, b) ==> h[a][b] == if Covers(w, 3, a, b) then v else g[a][b]
  {
    seq(Packed, a requires 0 <= a < Packed => seq(Packed, b requires 0 <= b < Packed => if Covers(w, 3, a, b) then v else g[a][b]))
  }

  /** Writing the three positions one by one gives the written wall. */
  lemma PutCellsWall(g: Grid, w: Wall, v: int)
    requires IsGrid(g) && InBounds(w)
    ensures PutCells(g, w, v, 3) == PutWall(g, w, v)
  {
    var lhs, rhs := PutCells(g, w, v, 3), PutWall(g, w, v);
    forall a | 0 <= a < Packed
      ensures lhs[a] == rhs[a]
    {
      assert forall b :: 0 <= b < Packed ==> lhs[a][b] == rhs[a][b];
    }
  }

  /** Writing a wall touches exactly its three positions, and only wall slots. */
  lemma PutWallAt(g: Grid, w: Wall, v: int, a: int, b: int)
    requires IsGrid(g) && InBounds(w) && InPacked(a, b)
    ensures PutWall(g, w, v)[a][b] == if Covers(w, 3, a, b) then v else g[a][b]
    ensures Covers(w, 3, a, b) ==> IsSlot(a, b)
  {
  }

  /** Writing the same wall twice leaves only the second value. */
  lemma PutWallOverride(g: Grid, w: Wall, v1: int, v2: int)
    requires IsGrid(g) && InBounds(w)
    ensures PutWall(PutWall(g, w, v1), w, v2) == PutWall(g, w, v2)
  {
    var lhs, rhs := PutWall(PutWall(g, w, v1), w, v2), PutWall(g, w, v2);
    forall a | 0 <= a < Packed
      ensures lhs[a] == rhs[a]
    {
      forall b | 0 <= b < Packed
        ensures lhs[a][b] == rhs[a][b]
      {
        PutWallAt(PutWall(g, w, v1), w, v2, a, b);
        PutWallAt(g, w, v1, a, b);
        PutWallAt(g, w, v2, a, b);
      }
    }
  }

  /** The wall after a quarter turn: the wall pivots on its middle position. */
  function Rotate(w: Wall): (r: Wall)
    ensures r.horizontal == !w.horizontal
    ensures InBounds(w) ==> InBounds(r)
    ensures WallCell(r, 1) == WallCell(w, 1)
  {
    if w.horizontal then Wall(false, w.x + 1, w.y - 1)
    else Wall(true, w.x - 1, w.y + 1)
  }

  /** Two quarter turns restore the wall. */
  lemma RotateTwice(w: Wall)
    ensures Rotate(Rotate(w)) == w
  {
  }

  /** The wall moved one step in direction `d`, orientation kept. */
  function Nudge(w: Wall, d: Direction): (r: Wall)
    ensures r.horizontal == w.horizontal
    ensures forall i :: 0 <= i < 3 ==> WallCell(r, i) == (WallCell(w, i).0 + 2 * DRow(d), WallCell(w, i).1 + 2 * DCol(d))
  {
    Wall(w.horizontal, w.x + DCol(d), w.y + DRow(d))
  }
}
