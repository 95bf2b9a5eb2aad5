/** The game state of one Quoridor match and the operations that change it.

    Player positions are kept in packed coordinates (even numbers 0 .. 12), as
    the board stores them; the wall cursor is kept as an anchor (x, y) and two
    orientation flags. Flags that the game keeps as integers 0/1 are booleans
    here, and the four possible-move flags and the four face-to-face flags
    are each grouped into one record with a field per direction. Drawing on
    the display has no counterpart in this model. */
module Engine {
  import opened Board
  import opened Rules
  import opened Reach

  /** The cell whose token sits at packed position (row, col). */
  function CellOf(row: int, col: int): Cell {
    Cell(row / 2, col / 2)
  }

  /** A token position: even packed coordinates inside the board array. */
  predicate Placed(row: int, col: int)
    ensures Placed(row, col) ==> OnBoard(CellOf(row, col))
  {
    row % 2 == 0 && col % 2 == 0 && InPacked(row, col)
  }

  /** The match invariant on values: both tokens on even packed positions,
      the board holding exactly them, and wall codes in the wall slots. */
  ghost predicate Playing(g: Grid, row1: int, col1: int, row2: int, col2: int) {
    && IsGrid(g)
    && row1 % 2 == 0 && col1 % 2 == 0 && row2 % 2 == 0 && col2 % 2 == 0
    && TokensAt(g, CellOf(row1, col1), CellOf(row2, col2)) && WallCodes(g)
  }

  /** Whether a token at packed (row, col) is clear of the edge it would move
      towards: the bound each token move checks before it touches the board. */
  predicate AwayFromEdge(row: int, col: int, d: Direction) {
    match d
    case Down => row < Packed - 2
    case Left => col >= 2
    case Right => col < Packed - 2
    case Up => row >= 2
  }

  /** Where a token at packed (row, col) lands: 2 packed positions on in
      direction `d`, or 4 when it jumps. */
  function Landing(row: int, col: int, d: Direction, jump: bool): (int, int) {
    var k := if jump then 4 else 2;
    match d
    case Down => (row + k, col)
    case Left => (row, col - k)
    case Right => (row, col + k)
    case Up => (row - k, col)
  }

  /** The step a token move takes lands on the packed position of the target
      cell when its jump flag says whether the move is a jump; the token is
      clear of the edge it moves towards. */
  lemma LandsOnTarget(g: Grid, row: int, col: int, d: Direction)
    requires IsGrid(g) && row % 2 == 0 && col % 2 == 0 && OnBoard(CellOf(row, col))
    requires Resolve(g, CellOf(row, col), d) != Blocked
    ensures AwayFromEdge(row, col, d) && InPacked(row, col)
    ensures OnBoard(Target(g, CellOf(row, col), d))
    ensures Landing(row, col, d, Resolve(g, CellOf(row, col), d) == Jump).0 == 2 * Target(g, CellOf(row, col), d).row
    ensures Landing(row, col, d, Resolve(g, CellOf(row, col), d) == Jump).1 == 2 * Target(g, CellOf(row, col), d).col
  {
    var from := CellOf(row, col);
    assert row == 2 * from.row && col == 2 * from.col;
    var k := if Resolve(g, from, d) == Jump then 2 else 1;
    match d
    case Down =>
      assert Target(g, from, d) == Cell(from.row + k, from.col);
    case Left =>
      assert Target(g, from, d) == Cell(from.row, from.col - k);
    case Right =>
      assert Target(g, from, d) == Cell(from.row, from.col + k);
    case Up =>
      assert Target(g, from, d) == Cell(from.row - k, from.col);
  }

  /** A move that is not blocked never fails the edge bound. */
  lemma AwayWhenOpen(g: Grid, row: int, col: int, d: Direction)
    requires IsGrid(g) && Placed(row, col)
    ensures Resolve(g, CellOf(row, col), d) != Blocked ==> AwayFromEdge(row, col, d)
  {
    if Resolve(g, CellOf(row, col), d) != Blocked {
      LandsOnTarget(g, row, col, d);
    }
  }

  /** A move of a token at `row, col` that the caller may make, after the scan
      has widened the face-to-face flags to `f`, lands inside the board array:
      on the target cell when the flag agrees with the move decision, and 4
      positions on when a stale flag asks for it and the array holds that. */
  lemma LandingInside(g: Grid, row: int, col: int, d: Direction, stale: bool)
    requires IsGrid(g) && Placed(row, col) && Resolve(g, CellOf(row, col), d) != Blocked
    requires stale ==> InPacked(Landing(row, col, d, true).0, Landing(row, col, d, true).1)
    ensures var to := Landing(row, col, d, stale || Resolve(g, CellOf(row, col), d) == Jump);
      && AwayFromEdge(row, col, d) && Placed(to.0, to.1)
      && ((!stale || Resolve(g, CellOf(row, col), d) == Jump) ==> CellOf(to.0, to.1) == Target(g, CellOf(row, col), d))
  {
    var jump := Resolve(g, CellOf(row, col), d) == Jump;
    LandsOnTarget(g, row, col, d);
    LandingEven(row, col, d, stale || jump);
    if !stale || jump {
      var t := Target(g, CellOf(row, col), d);
      assert Landing(row, col, d, jump) == (2 * t.row, 2 * t.col);
    }
  }

  /** A step from even packed coordinates lands on even packed coordinates. */
  lemma LandingEven(row: int, col: int, d: Direction, jump: bool)
    requires row % 2 == 0 && col % 2 == 0
    ensures Landing(row, col, d, jump).0 % 2 == 0 && Landing(row, col, d, jump).1 % 2 == 0
  {
  }

  /** A token move that steps by a flag agreeing with the move decision
      keeps the match in play and lands on the target cell. */
  lemma AgreeingFlagKeepsPlay(g: Grid, row1: int, col1: int, row2: int, col2: int, d: Direction, first: bool, flag: bool)
    requires IsGrid(g)
    ensures first ==>
      var from := CellOf(row1, col1);
      var to := Landing(row1, col1, d, flag);
      (Playing(g, row1, col1, row2, col2) && Resolve(g, from, d) != Blocked && flag == (Resolve(g, from, d) == Jump) ==>
        && InPacked(row1, col1) && InPacked(to.0, to.1) && CellOf(to.0, to.1) == Target(g, from, d)
        && Playing(Put(Put(g, row1, col1, Free), to.0, to.1, 1), to.0, to.1, row2, col2))
    ensures !first ==>
      var from := CellOf(row2, col2);
      var to := Landing(row2, col2, d, flag);
      (Playing(g, row1, col1, row2, col2) && Resolve(g, from, d) != Blocked && flag == (Resolve(g, from, d) == Jump) ==>
        && InPacked(row2, col2) && InPacked(to.0, to.1) && CellOf(to.0, to.1) == Target(g, from, d)
        && Playing(Put(Put(g, row2, col2, Free), to.0, to.1, 2), row1, col1, to.0, to.1))
  {
    var from := if first then CellOf(row1, col1) else CellOf(row2, col2);
    if Playing(g, row1, col1, row2, col2) && Resolve(g, from, d) != Blocked && flag == (Resolve(g, from, d) == Jump) {
      MoveKeepsPlay(g, row1, col1, row2, col2, d, first);
    }
  }

  /** The face-to-face flag the token moves step by is never reset except
      after player 1 moves down, so it can ask for a jump the board no longer
      allows. With player 1 at packed (4, 6), player 2 at packed (4, 2) and a
      left flag left set, a move of player 1 to the left is an ordinary step
      on the board, yet the token steps 4 positions onto player 2 and token 2
      disappears from the board. */
  lemma StaleFlagOverwrites()
    ensures var g := Put(Put(EmptyGrid(), 4, 6, 1), 4, 2, 2);
      var to := Landing(4, 6, Left, true);
      var h := Put(Put(g, 4, 6, Free), to.0, to.1, 1);
      && Playing(g, 4, 6, 4, 2)
      && Resolve(g, CellOf(4, 6), Left) == Advance
      && to == (4, 2)
      && (forall c :: OnBoard(c) ==> TokenAt(h, c) != 2)
      && !Playing(h, to.0, to.1, 4, 2)
  {
    var g := Put(Put(EmptyGrid(), 4, 6, 1), 4, 2, 2);
    forall c | OnBoard(c)
      ensures TokenAt(g, c) == if c == Cell(2, 3) then 1 else if c == Cell(2, 1) then 2 else Free
    {
    }
    assert CellOf(4, 6) == Cell(2, 3) && CellOf(4, 2) == Cell(2, 1);
    assert Shift(Cell(2, 3), Left, 1) == Cell(2, 2);
  }

  /** Moving one token to a free cell keeps the match invariant, with the
      moved token's packed position updated. */
  lemma StepKeepsPlaying(g: Grid, row1: int, col1: int, row2: int, col2: int, to: Cell, first: bool)
    requires Playing(g, row1, col1, row2, col2) && OnBoard(to) && TokenAt(g, to) == Free
    ensures first ==>
      Playing(Put(Put(g, row1, col1, Free), 2 * to.row, 2 * to.col, 1), 2 * to.row, 2 * to.col, row2, col2)
    ensures !first ==>
      Playing(Put(Put(g, row2, col2, Free), 2 * to.row, 2 * to.col, 2), row1, col1, 2 * to.row, 2 * to.col)
  {
    var p1, p2 := CellOf(row1, col1), CellOf(row2, col2);
    assert row1 == 2 * p1.row && col1 == 2 * p1.col && row2 == 2 * p2.row && col2 == 2 * p2.col;
    StepKeepsTokens(g, p1, p2, to, first);
    assert CellOf(2 * to.row, 2 * to.col) == to;
  }

  /** A token move that is not blocked keeps the match invariant: the token
      lands on the packed position of its target cell and the board holds it
      there, with its old cell cleared. */
  lemma MoveKeepsPlay(g: Grid, row1: int, col1: int, row2: int, col2: int, d: Direction, first: bool)
    requires Playing(g, row1, col1, row2, col2)
    requires Resolve(g, if first then CellOf(row1, col1) else CellOf(row2, col2), d) != Blocked
    ensures first ==>
      var from := CellOf(row1, col1);
      var to := Landing(row1, col1, d, Resolve(g, from, d) == Jump);
      && AwayFromEdge(row1, col1, d) && InPacked(row1, col1) && InPacked(to.0, to.1)
      && CellOf(to.0, to.1) == Target(g, from, d)
      && Playing(Put(Put(g, row1, col1, Free), to.0, to.1, 1), to.0, to.1, row2, col2)
    ensures !first ==>
      var from := CellOf(row2, col2);
      var to := Landing(row2, col2, d, Resolve(g, from, d) == Jump);
      && AwayFromEdge(row2, col2, d) && InPacked(row2, col2) && InPacked(to.0, to.1)
      && CellOf(to.0, to.1) == Target(g, from, d)
      && Playing(Put(Put(g, row2, col2, Free), to.0, to.1, 2), row1, col1, to.0, to.1)
  {
    var p1, p2 := CellOf(row1, col1), CellOf(row2, col2);
    var from, other := if first then p1 else p2, if first then p2 else p1;
    var target := Target(g, from, d);
    if first {
      LandsOnTarget(g, row1, col1, d);
    } else {
      LandsOnTarget(g, row2, col2, d);
    }
    MoveLandsFree(g, from, other, d);
    StepKeepsPlaying(g, row1, col1, row2, col2, target, first);
    assert CellOf(2 * target.row, 2 * target.col) == target;
  }

  /** The packed board at the start of a match is in play: the tokens in the
      middle of rows 0 and 6 and no wall. */
  lemma StartPlaying()
    ensures Playing(Put(Put(EmptyGrid(), 0, 6, 1), 12, 6, 2), 0, 6, 12, 6)
  {
    StartingBoard();
    assert CellOf(0, 6) == Cell(0, 3) && CellOf(12, 6) == Cell(6, 3);
  }

  /** Writing or erasing a wall keeps the match invariant. */
  lemma WallKeepsPlaying(g: Grid, w: Wall, v: int, row1: int, col1: int, row2: int, col2: int)
    requires Playing(g, row1, col1, row2, col2) && InBounds(w) && v in {Free, Player1Wall, Player2Wall}
    ensures Playing(PutWall(g, w, v), row1, col1, row2, col2)
  {
    WallWriteKeepsTokens(g, w, v, CellOf(row1, col1), CellOf(row2, col2));
  }

  /** The wall code of a player: 3 for player 1, 4 for any other id. */
  function WallCode(player: int): (code: int)
    ensures code in {Player1Wall, Player2Wall}
  {
    if player == 1 then Player1Wall else Player2Wall
  }

  /** The row a player has to reach: 6 for player 1, 0 for any other id. */
  function GoalRow(player: int): (row: int)
    ensures 0 <= row < Side
  {
    if player == 1 then Side - 1 else 0
  }

  /** Offsets of the neighbours the trap search visits, in order: up, down,
      left, right. */
  const Neighbors: seq<(int, int)> := [(-1, 0), (1, 0), (0, -1), (0, 1)]

  function NeighborCell(c: Cell, i: int): Cell
    requires 0 <= i < 4
  {
    Cell(c.row + Neighbors[i].0, c.col + Neighbors[i].1)
  }

  /** Every cell one open step away is one of the four neighbours the search
      visits. */
  lemma OpenIsNeighbor(g: Grid, a: Cell, b: Cell)
    requires IsGrid(g) && Open(g, a, b)
    ensures b == NeighborCell(a, 0) || b == NeighborCell(a, 1) || b == NeighborCell(a, 2) || b == NeighborCell(a, 3)
  {
  }

  /** What the trap search has found so far: the cells in queue order, the
      same cells as a set, and for each of them an open walk from the start. */
  datatype Trail = Trail(order: seq<Cell>, seen: set<Cell>, walks: seq<seq<Cell>>)

  /** The trail holds distinct board cells, at most all 49, each reached
      from `start` by the open walk stored beside it. */
  ghost predicate Explored(g: Grid, t: Trail, start: Cell)
    requires IsGrid(g)
  {
    && 0 < |t.order| <= Side * Side && |t.walks| == |t.order| && |t.seen| == |t.order| && t.order[0] == start
    && (forall c :: c in t.seen ==> OnBoard(c) && c in t.order)
    && (forall k :: 0 <= k < |t.order| ==> t.order[k] in t.seen)
    && (forall k :: 0 <= k < |t.order| ==>
          IsWalk(g, t.walks[k]) && t.walks[k][0] == start && t.walks[k][|t.walks[k]| - 1] == t.order[k])
  }

  /** The trail with cell `b` appended, reached through `t.order[from]`. */
  function Extend(t: Trail, from: int, b: Cell): (r: Trail)
    requires 0 <= from < |t.walks|
    ensures |r.order| == |t.order| + 1 && r.order[|t.order|] == b && b in r.seen
  {
    Trail(t.order + [b], t.seen + {b}, t.walks + [t.walks[from] + [b]])
  }

  /** `u` extends `t`: it keeps the cells of `t` in their queue positions. */
  ghost predicate Grows(t: Trail, u: Trail) {
    && |t.order| <= |u.order| && t.seen <= u.seen
    && forall k :: 0 <= k < |t.order| ==> u.order[k] == t.order[k]
  }

  lemma GrowsTrans(t: Trail, u: Trail, v: Trail)
    requires Grows(t, u) && Grows(u, v)
    ensures Grows(t, v)
  {
  }

  /** Appending an unseen cell one open step from a cell of the trail keeps
      it explored; in particular the trail never outgrows the board. */
  lemma ExtendExplored(g: Grid, t: Trail, start: Cell, from: int, b: Cell)
    requires IsGrid(g) && Explored(g, t, start) && 0 <= from < |t.order|
    requires b !in t.seen && Open(g, t.order[from], b)
    ensures Explored(g, Extend(t, from, b), start) && Grows(t, Extend(t, from, b))
  {
    FewerThanAllCells(t.seen, b);
    WalkExtend(g, t.walks[from], b);
  }

  /** Each of the first `i` neighbours of `cur` that is one open step away
      from it is in `seen`. */
  ghost predicate Covered(g: Grid, cur: Cell, i: int, seen: set<Cell>)
    requires IsGrid(g)
  {
    forall j :: 0 <= j < 4 && j < i && Open(g, cur, NeighborCell(cur, j)) ==> NeighborCell(cur, j) in seen
  }

  lemma CoveredStep(g: Grid, cur: Cell, i: int, seen: set<Cell>, seen': set<Cell>)
    requires IsGrid(g) && 0 <= i < 4 && Covered(g, cur, i, seen) && seen <= seen'
    requires Open(g, cur, NeighborCell(cur, i)) ==> NeighborCell(cur, i) in seen'
    ensures Covered(g, cur, i + 1, seen')
  {
  }

  /** Once all four neighbours are covered, every cell one open step away is. */
  lemma CoveredAll(g: Grid, cur: Cell, seen: set<Cell>)
    requires IsGrid(g) && Covered(g, cur, 4, seen)
    ensures forall b :: Open(g, cur, b) ==> b in seen
  {
    forall b | Open(g, cur, b)
      ensures b in seen
    {
      OpenIsNeighbor(g, cur, b);
    }
  }

  /** The first `front` cells of the trail are expanded: every cell one
      open step from one of them is on the trail, and none lies in row `goal`. */
  ghost predicate Expanded(g: Grid, t: Trail, front: int, goal: int)
    requires IsGrid(g)
  {
    && 0 <= front <= |t.order|
    && (forall k :: 0 <= k < front ==> t.order[k].row != goal)
    && (forall k, b :: 0 <= k < front && Open(g, t.order[k], b) ==> b in t.seen)
  }

  /** Expanding the next cell of the trail, which is not in row `goal`,
      extends the expanded prefix by one. */
  lemma ExpandedStep(g: Grid, t: Trail, u: Trail, front: int, goal: int)
    requires IsGrid(g) && Expanded(g, t, front, goal) && front < |t.order| && Grows(t, u)
    requires t.order[front].row != goal
    requires forall b :: Open(g, t.order[front], b) ==> b in u.seen
    ensures Expanded(g, u, front + 1, goal)
  {
  }

  /** The trail the search starts from: the start cell alone, not yet expanded. */
  lemma StartTrail(g: Grid, start: Cell, goal: int)
    requires IsGrid(g) && OnBoard(start)
    ensures var t := Trail([start], {start}, [[start]]);
      Explored(g, t, start) && Expanded(g, t, 0, goal)
  {
    assert IsWalk(g, [start]);
  }

  /** A cell of the trail in row `goal` shows that the start escapes. */
  lemma TrailEscapes(g: Grid, t: Trail, start: Cell, k: int, goal: int)
    requires IsGrid(g) && Explored(g, t, start) && 0 <= k < |t.order| && t.order[k].row == goal
    ensures Escapes(g, start, goal)
  {
    assert IsWalk(g, t.walks[k]);
  }

  /** A trail expanded to its end without reaching row `goal` is a closed
      region that shows that the start cannot escape. */
  lemma TrailTraps(g: Grid, t: Trail, start: Cell, goal: int)
    requires IsGrid(g) && Explored(g, t, start) && Expanded(g, t, |t.order|, goal)
    ensures !Escapes(g, start, goal)
  {
    forall a | a in t.seen
      ensures a.row != goal && forall b :: Open(g, a, b) ==> b in t.seen
    {
      var k :| 0 <= k < |t.order| && t.order[k] == a;
    }
    ClosedRegionTraps(g, t.seen, start, goal);
  }

  /** The bound a wall-cursor move in direction `d` checks, per orientation
      flag: the anchor after the step must stay within the range of that
      orientation. */
  predicate StepFits(horizontal: bool, vertical: bool, x: int, y: int, d: Direction) {
    match d
    case Down => (horizontal && y + 1 < Side - 1) || (vertical && y + 1 < Side - 2)
    case Left => (horizontal && x - 1 >= -1) || (vertical && x - 1 >= 0)
    case Right => (horizontal && x + 1 < Side - 2) || (vertical && x + 1 < Side - 1)
    case Up => (horizontal && y - 1 >= 0) || (vertical && y - 1 >= -1)
  }

  /** For a wall on the board with exactly one orientation flag set, the
      bound a cursor move checks holds exactly when the moved wall is still
      on the board. */
  lemma StepFitsInBounds(w: Wall, d: Direction)
    requires InBounds(w)
    ensures StepFits(w.horizontal, !w.horizontal, w.x, w.y, d) <==> InBounds(Nudge(w, d))
  {
  }

  class Quoridor {
    /** The packed 13×13 board. */
    const board: array2<int>
    /** The value of `board`. */
    ghost var grid: Grid

    var startMatch: bool
    var startTurn1: bool
    var startTurn2: bool
    var endTurn1: bool
    var endTurn2: bool

    /** Token positions in packed coordinates. */
    var rowPlayer1: int
    var rowPlayer2: int
    var colPlayer1: int
    var colPlayer2: int

    /** Per direction: set when a scan found a jump over the opponent. */
    var faceToFace: Moves
    /** Per direction: cleared when a scan found the direction blocked. */
    var possible: Moves

    /** The wall cursor. */
    var posxWall: int
    var posyWall: int
    var horizontal: bool
    var vertical: bool
    var isOverlapped: bool
    var isPreviousOverlapped: bool
    var isOut: bool

    /** Verdicts of the last two trap checks of a wall commit. */
    var trap1: bool
    var trap2: bool

    /** Mode and move counters owned by the input handling. */
    var wallMode: int
    var mossa: int

    /** Taken positions under the cursor wall: coordinates and owner code. */
    const overlapPos: array2<int>
    const opponentWall: array<int>

    /** Scratch state of the trap search. */
    const visited: array2<bool>
    const queue: array2<int>

    /** `grid` is the value of `board`. */
    ghost predicate Synced()
      reads this`grid, board
    {
      && board.Length0 == Packed && board.Length1 == Packed
      && IsGrid(grid)
      && (forall i, j {:trigger board[i, j]} :: 0 <= i < Packed && 0 <= j < Packed ==> board[i, j] == grid[i][j])
    }

    ghost predicate Valid()
      reads this`grid, board
    {
      && Synced()
      && visited.Length0 == Side && visited.Length1 == Side
      && queue.Length0 == Side * Side * 4 && queue.Length1 == 2
      && overlapPos.Length0 == 3 && overlapPos.Length1 == 2 && opponentWall.Length == 3
      && board != queue && board != overlapPos && queue != overlapPos
    }

    /** The match invariant on the board value: it holds exactly the two
        tokens, at the stored packed positions, and wall codes in the wall slots. */
    ghost predicate Matched()
      reads this`grid, this`rowPlayer1, this`colPlayer1, this`rowPlayer2, this`colPlayer2
    {
      Playing(grid, rowPlayer1, colPlayer1, rowPlayer2, colPlayer2)
    }

    /** The match invariant, with the board array in step with its value. */
    ghost predicate InPlay()
      reads this`grid, board, this`rowPlayer1, this`colPlayer1, this`rowPlayer2, this`colPlayer2
    {
      Valid() && Matched()
    }

    /** The cell of the token that `player` designates: player 1's, or player
        2's for any other id. */
    function Mover(player: int): Cell
      reads this`rowPlayer1, this`colPlayer1, this`rowPlayer2, this`colPlayer2
    {
      if player == 1 then CellOf(rowPlayer1, colPlayer1) else CellOf(rowPlayer2, colPlayer2)
    }

    /** The packed position of the token that `player` designates: player
        1's, or player 2's for any other id. */
    function Position(player: int): (int, int)
      reads this`rowPlayer1, this`colPlayer1, this`rowPlayer2, this`colPlayer2
    {
      if player == 1 then (rowPlayer1, colPlayer1) else (rowPlayer2, colPlayer2)
    }

    /** What the caller of a token move has checked: the move is not blocked
        on the board. A face-to-face flag left set by an earlier scan makes
        the move step 4 positions whatever the board says, and the board
        array has to hold that landing position. */
    ghost predicate MoveAllowed(player: int, d: Direction)
      reads this`grid, this`rowPlayer1, this`colPlayer1, this`rowPlayer2, this`colPlayer2
      reads this`faceToFace
      requires IsGrid(grid) && Placed(Position(player).0, Position(player).1)
    {
      var pos := Position(player);
      && Resolve(grid, Mover(player), d) != Blocked
      && (faceToFace.Get(d) ==> InPacked(Landing(pos.0, pos.1, d, true).0, Landing(pos.0, pos.1, d, true).1))
    }

    /** The effect of a token move of `player` in direction `d`: the scan from
        the mover's cell has updated both flag records; the mover has
        stepped 2 positions, or 4 when the face-to-face flag of `d` is set
        after the scan, with its old position cleared and its id written at
        the new one; the opponent has not moved and the mover's turn has
        ended. Only player 1 moving down clears the face-to-face flag it used.
        When the flag agreed with the board, the match stays in play and the
        mover stands on the target cell of the move. */
    twostate predicate TokenMoved(player: int, d: Direction)
      reads this`grid, this`rowPlayer1, this`colPlayer1, this`rowPlayer2, this`colPlayer2
      reads this`faceToFace, this`possible, this`endTurn1, this`endTurn2
      requires old(IsGrid(grid) && Placed(Position(player).0, Position(player).1))
    {
      var from, pos := old(Mover(player)), old(Position(player));
      var widened := Widened(old(faceToFace), old(grid), from);
      var to := Landing(pos.0, pos.1, d, widened.Get(d));
      && Position(player) == to && InPacked(to.0, to.1)
      && (if player == 1 then Position(2) == old(Position(2)) else Position(1) == old(Position(1)))
      && grid == Put(Put(old(grid), pos.0, pos.1, Free), to.0, to.1, if player == 1 then 1 else 2)
      && possible == Narrowed(old(possible), old(grid), from)
      && faceToFace == (if player == 1 && d == Down then widened.(down := false) else widened)
      && (if player == 1 then endTurn1 && endTurn2 == old(endTurn2) else endTurn2 && endTurn1 == old(endTurn1))
      && (old(Matched()) && (old(faceToFace).Get(d) ==> Resolve(old(grid), from, d) == Jump) ==>
            Matched() && Mover(player) == Target(old(grid), from, d))
    }

    /** The effect of a wall-cursor move in direction `d`: when the wall one
        step on stays on the board, the cursor stands there and both overlap
        flags and the overlap record describe the taken positions under it;
        otherwise the cursor, the flags and the record are as they were and
        the out-of-board flag is set. The board is not written. */
    twostate predicate CursorMoved(d: Direction)
      reads this`grid, this`horizontal, this`posxWall, this`posyWall
      reads this`isOverlapped, this`isPreviousOverlapped, this`isOut, overlapPos, opponentWall
      requires IsGrid(grid) && InBounds(Cursor())
      requires overlapPos.Length0 == 3 && overlapPos.Length1 == 2 && opponentWall.Length == 3
    {
      if InBounds(Nudge(old(Cursor()), d)) then
        && Cursor() == Nudge(old(Cursor()), d) && isOut == old(isOut)
        && (isOverlapped <==> |Collisions(grid, Cursor())| > 0) && isPreviousOverlapped == isOverlapped
        && Records(Collisions(grid, Cursor()))
      else
        && Cursor() == old(Cursor()) && isOut
        && isOverlapped == old(isOverlapped) && isPreviousOverlapped == old(isPreviousOverlapped)
        && unchanged(overlapPos, opponentWall)
    }

    /** The wall under the cursor. */
    function Cursor(): Wall
      reads this`horizontal, this`posxWall, this`posyWall
    {
      Wall(horizontal, posxWall, posyWall)
    }

    /** The cursor invariant: exactly one orientation flag is set, and the
        wall under the cursor lies on the board. */
    ghost predicate CursorOk()
      reads this`horizontal, this`vertical, this`posxWall, this`posyWall
    {
      vertical == !horizontal && InBounds(Cursor())
    }

    /** The overlap record holds `found` in its first entries, coordinates in
        `overlapPos` and owner codes in `opponentWall`, and zeros after. */
    ghost predicate Records(found: seq<Collision>)
      reads overlapPos, opponentWall
      requires overlapPos.Length0 == 3 && overlapPos.Length1 == 2 && opponentWall.Length == 3
    {
      Holds(0, found) && Holds(1, found) && Holds(2, found)
    }

    /** Entry `k` of the overlap record holds the k-th element of `found`, or
        zeros past its end. */
    ghost predicate Holds(k: int, found: seq<Collision>)
      reads overlapPos, opponentWall
      requires overlapPos.Length0 == 3 && overlapPos.Length1 == 2 && opponentWall.Length == 3
      requires 0 <= k < 3
    {
      if k < |found| then
        overlapPos[k, 0] == found[k].row && overlapPos[k, 1] == found[k].col && opponentWall[k] == found[k].owner
      else
        overlapPos[k, 0] == 0 && overlapPos[k, 1] == 0 && opponentWall[k] == 0
    }

    /** The state before the match: an empty board, every flag and counter 0,
        except the four possible-move flags, which start at 1. */
    constructor ()
      ensures Valid() && grid == EmptyGrid()
      ensures possible == Moves(true, true, true, true) && faceToFace == Moves(false, false, false, false)
      ensures !startMatch && !startTurn1 && !startTurn2 && !endTurn1 && !endTurn2
      ensures rowPlayer1 == colPlayer1 == rowPlayer2 == colPlayer2 == 0
      ensures posxWall == posyWall == 0 && !horizontal && !vertical
      ensures !isOverlapped && !isPreviousOverlapped && !isOut && !trap1 && !trap2 && wallMode == mossa == 0
      ensures forall k, j :: 0 <= k < 3 && 0 <= j < 2 ==> overlapPos[k, j] == 0
      ensures forall k :: 0 <= k < 3 ==> opponentWall[k] == 0
      ensures forall r, c :: 0 <= r < Side && 0 <= c < Side ==> !visited[r, c]
      ensures forall k, j :: 0 <= k < Side * Side * 4 && 0 <= j < 2 ==> queue[k, j] == 0
    {
      board := new int[Packed, Packed]((i, j) => Free);
      grid := EmptyGrid();
      startMatch, startTurn1, startTurn2, endTurn1, endTurn2 := false, false, false, false, false;
      rowPlayer1, rowPlayer2, colPlayer1, colPlayer2 := 0, 0, 0, 0;
      faceToFace := Moves(false, false, false, false);
      possible := Moves(true, true, true, true);
      posxWall, posyWall, horizontal, vertical := 0, 0, false, false;
      isOverlapped, isPreviousOverlapped, isOut, trap1, trap2 := false, false, false, false, false;
      wallMode, mossa := 0, 0;
      overlapPos := new int[3, 2]((i, j) => 0);
      opponentWall := new int[3](i => 0);
      visited := new bool[Side, Side]((i, j) => false);
      queue := new int[Side * Side * 4, 2]((i, j) => 0);
    }

    /** The one way the board changes: position (i, j) gets `v`. */
    method SetCell(i: int, j: int, v: int)
      requires Valid() && InPacked(i, j)
      modifies board, this`grid
      ensures Valid() && grid == Put(old(grid), i, j, v)
    {
      board[i, j] := v;
      grid := Put(grid, i, j, v);
    }

    /** Scans the four directions from cell (currRow, currCol), reading the
        board: a blocked direction clears its possible-move flag, a jump over
        the opponent sets its face-to-face flag, and nothing else changes. */
    method PossibleMoves(currRow: int, currCol: int)
      requires Synced() && OnBoard(Cell(currRow, currCol))
      modifies this`possible, this`faceToFace
      ensures possible == Narrowed(old(possible), grid, Cell(currRow, currCol))
      ensures faceToFace == Widened(old(faceToFace), grid, Cell(currRow, currCol))
    {
      var down := ScanDown(currRow, currCol);
      var left := ScanLeft(currRow, currCol);
      var right := ScanRight(currRow, currCol);
      var up := ScanUp(currRow, currCol);
      possible := Moves(possible.down && down != Blocked, possible.left && left != Blocked,
                        possible.right && right != Blocked, possible.up && up != Blocked);
      faceToFace := Moves(faceToFace.down || down == Jump, faceToFace.left || left == Jump,
                          faceToFace.right || right == Jump, faceToFace.up || up == Jump);
    }

    /** The scan below (currRow, currCol). */
    method ScanDown(currRow: int, currCol: int) returns (o: Outcome)
      requires Synced() && OnBoard(Cell(currRow, currCol))
      ensures o == Resolve(grid, Cell(currRow, currCol), Down)
    {
      ResolveDown(grid, Cell(currRow, currCol));
      o := Advance;
      if currRow + 1 < Side {
        if board[(currRow + 1) * 2, currCol * 2] == Free {
          if board[(currRow + 1) * 2 - 1, currCol * 2] != Free {
            o := Blocked;
          }
        } else if currRow + 2 < Side
          && board[(currRow + 1) * 2 - 1, currCol * 2] == Free
          && board[(currRow + 1) * 2 + 1, currCol * 2] == Free
        {
          o := Jump;
        } else {
          o := Blocked;
        }
      } else {
        o := Blocked;
      }
    }

    /** The scan left of (currRow, currCol). */
    method ScanLeft(currRow: int, currCol: int) returns (o: Outcome)
      requires Synced() && OnBoard(Cell(currRow, currCol))
      ensures o == Resolve(grid, Cell(currRow, currCol), Left)
    {
      ResolveLeft(grid, Cell(currRow, currCol));
      o := Advance;
      if currCol - 1 >= 0 {
        if board[currRow * 2, (currCol - 1) * 2] == Free {
          if board[currRow * 2, (currCol - 1) * 2 + 1] != Free {
            o := Blocked;
          }
        } else if currCol - 2 >= 0
          && board[currRow * 2, (currCol - 1) * 2 + 1] == Free
          && board[currRow * 2, (currCol - 1) * 2 - 1] == Free
        {
          o := Jump;
        } else {
          o := Blocked;
        }
      } else {
        o := Blocked;
      }
    }

    /** The scan right of (currRow, currCol). */
    method ScanRight(currRow: int, currCol: int) returns (o: Outcome)
      requires Synced() && OnBoard(Cell(currRow, currCol))
      ensures o == Resolve(grid, Cell(currRow, currCol), Right)
    {
      ResolveRight(grid, Cell(currRow, currCol));
      o := Advance;
      if currCol + 1 < Side {
        if board[currRow * 2, (currCol + 1) * 2] == Free {
          if board[currRow * 2, (currCol + 1) * 2 - 1] != Free {
            o := Blocked;
          }
        } else if currCol + 2 < Side
          && board[currRow * 2, (currCol + 1) * 2 - 1] == Free
          && board[currRow * 2, (currCol + 1) * 2 + 1] == Free
        {
          o := Jump;
        } else {
          o := Blocked;
        }
      } else {
        o := Blocked;
      }
    }

    /** The scan above (currRow, currCol). */
    method ScanUp(currRow: int, currCol: int) returns (o: Outcome)
      requires Synced() && OnBoard(Cell(currRow, currCol))
      ensures o == Resolve(grid, Cell(currRow, currCol), Up)
    {
      ResolveUp(grid, Cell(currRow, currCol));
      o := Advance;
      if currRow - 1 >= 0 {
        if board[(currRow - 1) * 2, currCol * 2] == Free {
          if board[(currRow - 1) * 2 + 1, currCol * 2] != Free {
            o := Blocked;
          }
        } else if currRow - 2 >= 0
          && board[(currRow - 1) * 2 + 1, currCol * 2] == Free
          && board[(currRow - 1) * 2 - 1, currCol * 2] == Free
        {
          o := Jump;
        } else {
          o := Blocked;
        }
      } else {
        o := Blocked;
      }
    }

    /** A token leaves packed position (row, col) for (toRow, toCol): the old
        position is cleared, then `id` is written into the new one. */
    method Relocate(row: int, col: int, toRow: int, toCol: int, id: int)
      requires Valid() && InPacked(row, col) && InPacked(toRow, toCol)
      modifies board, this`grid
      ensures Valid() && grid == Put(Put(old(grid), row, col, Free), toRow, toCol, id)
    {
      SetCell(row, col, Free);
      SetCell(toRow, toCol, id);
    }

    /** The board part of a move of player 1, after the scan: when the
        token is clear of the edge it moves towards, its old position is
        cleared, it advances 2 packed positions, or 4 when the face-to-face
        flag of `d` is set, and its id is written there; otherwise nothing
        changes. When the flag agrees with the board the match stays in play. */
    method StepPlayer1(d: Direction, ghost agreed: bool)
      requires Valid() && Placed(rowPlayer1, colPlayer1)
      requires agreed ==> Resolve(grid, Mover(1), d) != Blocked && faceToFace.Get(d) == (Resolve(grid, Mover(1), d) == Jump)
      requires AwayFromEdge(rowPlayer1, colPlayer1, d) ==>
        Placed(Landing(rowPlayer1, colPlayer1, d, faceToFace.Get(d)).0, Landing(rowPlayer1, colPlayer1, d, faceToFace.Get(d)).1)
      modifies board, this`grid, this`rowPlayer1, this`colPlayer1, this`endTurn1, this`faceToFace
      ensures Valid() && Placed(rowPlayer1, colPlayer1)
      ensures if AwayFromEdge(old(rowPlayer1), old(colPlayer1), d) then
          && (rowPlayer1, colPlayer1) == Landing(old(rowPlayer1), old(colPlayer1), d, old(faceToFace).Get(d))
          && grid == Put(Put(old(grid), old(rowPlayer1), old(colPlayer1), Free), rowPlayer1, colPlayer1, 1)
          && endTurn1 && faceToFace == if d == Down then old(faceToFace).(down := false) else old(faceToFace)
        else
          && grid == old(grid) && rowPlayer1 == old(rowPlayer1) && colPlayer1 == old(colPlayer1)
          && endTurn1 == old(endTurn1) && faceToFace == old(faceToFace)
      ensures old(Matched()) && agreed ==> Matched() && Mover(1) == Target(old(grid), old(Mover(1)), d)
    {
      AwayWhenOpen(grid, rowPlayer1, colPlayer1, d);
      AgreeingFlagKeepsPlay(grid, rowPlayer1, colPlayer1, rowPlayer2, colPlayer2, d, true, faceToFace.Get(d));
      if AwayFromEdge(rowPlayer1, colPlayer1, d) {
        var to := Landing(rowPlayer1, colPlayer1, d, faceToFace.Get(d));
        Relocate(rowPlayer1, colPlayer1, to.0, to.1, 1);
        rowPlayer1, colPlayer1 := to.0, to.1;
        endTurn1 := true;
        if d == Down {
          faceToFace := faceToFace.(down := false);
        }
      }
    }

    /** A move of player 1 in direction `d`: the scan from its cell, then the step. */
    method MovePlayer1(d: Direction)
      requires Valid() && Placed(rowPlayer1, colPlayer1) && MoveAllowed(1, d)
      modifies board, this`grid, this`rowPlayer1, this`colPlayer1, this`endTurn1, this`possible, this`faceToFace
      ensures Valid() && Placed(rowPlayer1, colPlayer1) && TokenMoved(1, d)
    {
      ghost var from := Mover(1);
      ghost var widened := Widened(faceToFace, grid, from);
      LandingInside(grid, rowPlayer1, colPlayer1, d, faceToFace.Get(d));
      PossibleMoves(rowPlayer1 / 2, colPlayer1 / 2);
      assert faceToFace == widened;
      StepPlayer1(d, old(faceToFace).Get(d) ==> Resolve(old(grid), from, d) == Jump);
    }

    /** The board part of a move of player 2, as for player 1; no
        face-to-face flag is cleared. */
    method StepPlayer2(d: Direction, ghost agreed: bool)
      requires Valid() && Placed(rowPlayer2, colPlayer2)
      requires agreed ==> Resolve(grid, Mover(2), d) != Blocked && faceToFace.Get(d) == (Resolve(grid, Mover(2), d) == Jump)
      requires AwayFromEdge(rowPlayer2, colPlayer2, d) ==>
        Placed(Landing(rowPlayer2, colPlayer2, d, faceToFace.Get(d)).0, Landing(rowPlayer2, colPlayer2, d, faceToFace.Get(d)).1)
      modifies board, this`grid, this`rowPlayer2, this`colPlayer2, this`endTurn2
      ensures Valid() && Placed(rowPlayer2, colPlayer2)
      ensures if AwayFromEdge(old(rowPlayer2), old(colPlayer2), d) then
          && (rowPlayer2, colPlayer2) == Landing(old(rowPlayer2), old(colPlayer2), d, faceToFace.Get(d))
          && grid == Put(Put(old(grid), old(rowPlayer2), old(colPlayer2), Free), rowPlayer2, colPlayer2, 2)
          && endTurn2
        else
          && grid == old(grid) && rowPlayer2 == old(rowPlayer2) && colPlayer2 == old(colPlayer2)
          && endTurn2 == old(endTurn2)
      ensures old(Matched()) && agreed ==> Matched() && Mover(2) == Target(old(grid), old(Mover(2)), d)
    {
      AwayWhenOpen(grid, rowPlayer2, colPlayer2, d);
      AgreeingFlagKeepsPlay(grid, rowPlayer1, colPlayer1, rowPlayer2, colPlayer2, d, false, faceToFace.Get(d));
      if AwayFromEdge(rowPlayer2, colPlayer2, d) {
        var to := Landing(rowPlayer2, colPlayer2, d, faceToFace.Get(d));
        Relocate(rowPlayer2, colPlayer2, to.0, to.1, 2);
        rowPlayer2, colPlayer2 := to.0, to.1;
        endTurn2 := true;
      }
    }

    /** A move of player 2 in direction `d`: the scan from its cell, then the step. */
    method MovePlayer2(d: Direction)
      requires Valid() && Placed(rowPlayer2, colPlayer2) && MoveAllowed(2, d)
      modifies board, this`grid, this`rowPlayer2, this`colPlayer2, this`endTurn2, this`possible, this`faceToFace
      ensures Valid() && Placed(rowPlayer2, colPlayer2) && TokenMoved(2, d)
    {
      ghost var from := Mover(2);
      ghost var widened := Widened(faceToFace, grid, from);
      LandingInside(grid, rowPlayer2, colPlayer2, d, faceToFace.Get(d));
      PossibleMoves(rowPlayer2 / 2, colPlayer2 / 2);
      assert faceToFace == widened;
      StepPlayer2(d, old(faceToFace).Get(d) ==> Resolve(old(grid), from, d) == Jump);
    }

    /** move_down_token: player 1 when `player` is 1, player 2 otherwise. */
    method MoveDownToken(player: int)
      requires Valid() && Placed(Position(player).0, Position(player).1) && MoveAllowed(player, Down)
      modifies board, this`grid, this`rowPlayer1, this`colPlayer1, this`rowPlayer2, this`colPlayer2
      modifies this`endTurn1, this`endTurn2, this`possible, this`faceToFace
      ensures Valid() && Placed(Position(player).0, Position(player).1) && TokenMoved(player, Down)
    {
      if player == 1 {
        MovePlayer1(Down);
      } else {
        MovePlayer2(Down);
      }
    }

    /** move_left_token: player 1 when `player` is 1, player 2 otherwise. */
    method MoveLeftToken(player: int)
      requires Valid() && Placed(Position(player).0, Position(player).1) && MoveAllowed(player, Left)
      modifies board, this`grid, this`rowPlayer1, this`colPlayer1, this`rowPlayer2, this`colPlayer2
      modifies this`endTurn1, this`endTurn2, this`possible, this`faceToFace
      ensures Valid() && Placed(Position(player).0, Position(player).1) && TokenMoved(player, Left)
    {
      if player == 1 {
        MovePlayer1(Left);
      } else {
        MovePlayer2(Left);
      }
    }

    /** move_right_token: player 1 when `player` is 1, player 2 otherwise. */
    method MoveRightToken(player: int)
      requires Valid() && Placed(Position(player).0, Position(player).1) && MoveAllowed(player, Right)
      modifies board, this`grid, this`rowPlayer1, this`colPlayer1, this`rowPlayer2, this`colPlayer2
      modifies this`endTurn1, this`endTurn2, this`possible, this`faceToFace
      ensures Valid() && Placed(Position(player).0, Position(player).1) && TokenMoved(player, Right)
    {
      if player == 1 {
        MovePlayer1(Right);
      } else {
        MovePlayer2(Right);
      }
    }

    /** move_up_token: player 1 when `player` is 1, player 2 otherwise. */
    method MoveUpToken(player: int)
      requires Valid() && Placed(Position(player).0, Position(player).1) && MoveAllowed(player, Up)
      modifies board, this`grid, this`rowPlayer1, this`colPlayer1, this`rowPlayer2, this`colPlayer2
      modifies this`endTurn1, this`endTurn2, this`possible, this`faceToFace
      ensures Valid() && Placed(Position(player).0, Position(player).1) && TokenMoved(player, Up)
    {
      if player == 1 {
        MovePlayer1(Up);
      } else {
        MovePlayer2(Up);
      }
    }

    /** Writes `v` into the three positions of the wall at (x, y) in the
        current orientation, one after the other. */
    method PlaceWallCells(x: int, y: int, v: int)
      requires Valid() && InBounds(Wall(horizontal, x, y))
      modifies board, this`grid
      ensures Valid() && grid == PutWall(old(grid), Wall(horizontal, x, y), v)
    {
      for i := 0 to 3
        invariant Valid() && grid == PutCells(old(grid), Wall(horizontal, x, y), v, i)
      {
        if horizontal {
          SetCell(y * 2 + 1, x * 2 + 2 + i, v);
        } else {
          SetCell(y * 2 + 2 + i, x * 2 + 1, v);
        }
      }
      PutCellsWall(old(grid), Wall(horizontal, x, y), v);
    }

    /** Clears the whole board. */
    method InitializeBoard()
      requires Valid()
      modifies board, this`grid
      ensures Valid() && grid == EmptyGrid()
    {
      for i := 0 to Packed
        invariant forall a, b :: 0 <= a < i && 0 <= b < Packed ==> board[a, b] == Free
      {
        for j := 0 to Packed
          invariant forall a, b :: 0 <= a < i && 0 <= b < Packed ==> board[a, b] == Free
          invariant forall b :: 0 <= b < j ==> board[i, b] == Free
        {
          board[i, j] := Free;
        }
      }
      grid := EmptyGrid();
    }

    /** Starts a match: player 1 to move, tokens in the middle of rows 0 and 6,
        the cursor horizontal at (2, 2). The scan for player 1 runs before the
        tokens are written, so it sees the board as it was. On a cleared board
        the match is in play afterwards. */
    method StartGame()
      requires Valid()
      modifies this`startMatch, this`wallMode, this`mossa, this`startTurn1
      modifies this`rowPlayer1, this`rowPlayer2, this`colPlayer1, this`colPlayer2
      modifies this`posxWall, this`posyWall, this`horizontal, this`vertical
      modifies this`possible, this`faceToFace, board, this`grid
      ensures Valid() && startMatch && wallMode == 0 && mossa == 0 && startTurn1
      ensures rowPlayer1 == 0 && colPlayer1 == 6 && rowPlayer2 == 12 && colPlayer2 == 6
      ensures Cursor() == Wall(true, 2, 2) && CursorOk()
      ensures possible == Narrowed(old(possible), old(grid), Cell(0, 3))
      ensures faceToFace == Widened(old(faceToFace), old(grid), Cell(0, 3))
      ensures grid == Put(Put(old(grid), 0, 6, 1), 12, 6, 2)
      ensures old(grid) == EmptyGrid() ==> InPlay()
    {
      SetStart();
      PossibleMoves(rowPlayer1 / 2, colPlayer1 / 2);
      PlaceTokens();
    }

    /** Sets the match flags, the stored token positions and the cursor to
        their starting values. */
    method SetStart()
      modifies this`startMatch, this`wallMode, this`mossa, this`startTurn1
      modifies this`rowPlayer1, this`rowPlayer2, this`colPlayer1, this`colPlayer2
      modifies this`posxWall, this`posyWall, this`horizontal, this`vertical
      ensures startMatch && wallMode == 0 && mossa == 0 && startTurn1
      ensures rowPlayer1 == 0 && colPlayer1 == 6 && rowPlayer2 == 12 && colPlayer2 == 6
      ensures Cursor() == Wall(true, 2, 2) && !vertical
    {
      startMatch := true;
      wallMode := 0;
      mossa := 0;
      startTurn1 := true;
      rowPlayer1 := 0;
      rowPlayer2 := 12;
      colPlayer1 := 6;
      colPlayer2 := 6;
      posxWall := 2;
      posyWall := 2;
      horizontal := true;
      vertical := false;
    }

    /** Writes both tokens at their stored positions, the starting ones. */
    method PlaceTokens()
      requires Valid() && rowPlayer1 == 0 && colPlayer1 == 6 && rowPlayer2 == 12 && colPlayer2 == 6
      modifies board, this`grid
      ensures Valid() && grid == Put(Put(old(grid), 0, 6, 1), 12, 6, 2)
      ensures old(grid) == EmptyGrid() ==> InPlay()
    {
      SetCell(rowPlayer1, colPlayer1, 1);
      SetCell(rowPlayer2, colPlayer2, 2);
      StartPlaying();
    }

    /** Clears the overlap record: every coordinate and owner code is 0. */
    method ClearOverlap()
      requires Valid()
      modifies overlapPos, opponentWall
      ensures Records([])
    {
      for i := 0 to 3
        invariant forall k :: 0 <= k < i ==> opponentWall[k] == 0
      {
        opponentWall[i] := 0;
      }
      for i := 0 to 3
        invariant forall k :: 0 <= k < 3 ==> opponentWall[k] == 0
        invariant forall k, l :: 0 <= k < i && 0 <= l < 2 ==> overlapPos[k, l] == 0
      {
        for j := 0 to 2
          invariant forall k :: 0 <= k < 3 ==> opponentWall[k] == 0
          invariant forall k, l :: 0 <= k < i && 0 <= l < 2 ==> overlapPos[k, l] == 0
          invariant forall l :: 0 <= l < j ==> overlapPos[i, l] == 0
        {
          overlapPos[i, j] := 0;
        }
      }
    }

    /** Reports whether the wall at (x, y), in the current orientation, lies
        on a taken position, and records the taken positions with their
        owner codes; the board is only read. */
    method IsOverlappedWall(x: int, y: int) returns (overlap: bool)
      requires Valid() && InBounds(Wall(horizontal, x, y))
      modifies overlapPos, opponentWall
      ensures overlap <==> |Collisions(grid, Wall(horizontal, x, y))| > 0
      ensures Records(Collisions(grid, Wall(horizontal, x, y)))
    {
      var pos := 0;
      overlap := false;
      ClearOverlap();
      ghost var found: seq<Collision> := [];
      for i := 0 to 3
        invariant found == Scan(grid, Wall(horizontal, x, y), i)
        invariant pos == |found| <= i && (overlap <==> pos > 0)
        invariant Records(found)
      {
        var cell := WallCell(Wall(horizontal, x, y), i);
        if board[cell.0, cell.1] != Free {
          var owner := if board[cell.0, cell.1] == Player1Wall then Player1Wall else Player2Wall;
          Record(pos, cell.0, cell.1, owner, found);
          found := found + [Collision(cell.0, cell.1, owner)];
          pos := pos + 1;
          overlap := true;
        }
      }
    }

    /** Stores one more taken position in the overlap record, after the
        `pos` entries already there. */
    method Record(pos: int, row: int, col: int, owner: int, ghost found: seq<Collision>)
      requires overlapPos.Length0 == 3 && overlapPos.Length1 == 2 && opponentWall.Length == 3
      requires Records(found) && pos == |found| < 3
      modifies overlapPos, opponentWall
      ensures Records(found + [Collision(row, col, owner)])
    {
      opponentWall[pos] := owner;
      overlapPos[pos, 0] := row;
      overlapPos[pos, 1] := col;
    }

    /** Moves the cursor to the wall shifted by (dx, dy), on the board, and
        sets both overlap flags and the record for its new position. */
    method ShiftCursor(dx: int, dy: int)
      requires Valid() && CursorOk() && InBounds(Wall(horizontal, posxWall + dx, posyWall + dy))
      modifies this`posxWall, this`posyWall, this`isOverlapped, this`isPreviousOverlapped
      modifies overlapPos, opponentWall
      ensures CursorOk() && Cursor() == Wall(horizontal, old(posxWall) + dx, old(posyWall) + dy)
      ensures (isOverlapped <==> |Collisions(grid, Cursor())| > 0) && isPreviousOverlapped == isOverlapped
      ensures Records(Collisions(grid, Cursor()))
    {
      posxWall, posyWall := posxWall + dx, posyWall + dy;
      var overlap := IsOverlappedWall(posxWall, posyWall);
      isOverlapped, isPreviousOverlapped := overlap, overlap;
    }

    /** The shared part of the four wall-cursor moves: when the wall moved one
        step in direction `d` stays on the board, the cursor moves there and
        the overlap flags and record describe its new position; otherwise
        only the out-of-board flag is set. */
    method MoveWall(d: Direction)
      requires Valid() && CursorOk()
      modifies this`posxWall, this`posyWall, this`isOverlapped, this`isPreviousOverlapped, this`isOut
      modifies overlapPos, opponentWall
      ensures CursorOk() && CursorMoved(d)
    {
      StepFitsInBounds(Cursor(), d);
      if StepFits(horizontal, vertical, posxWall, posyWall, d) {
        ShiftCursor(DCol(d), DRow(d));
      } else {
        isOut := true;
      }
    }

    /** move_down_wall; the player id it takes is not used. */
    method MoveDownWall(player: int)
      requires Valid() && CursorOk()
      modifies this`posxWall, this`posyWall, this`isOverlapped, this`isPreviousOverlapped, this`isOut
      modifies overlapPos, opponentWall
      ensures CursorOk() && CursorMoved(Down)
    {
      MoveWall(Down);
    }

    /** move_left_wall; the player id it takes is not used. */
    method MoveLeftWall(player: int)
      requires Valid() && CursorOk()
      modifies this`posxWall, this`posyWall, this`isOverlapped, this`isPreviousOverlapped, this`isOut
      modifies overlapPos, opponentWall
      ensures CursorOk() && CursorMoved(Left)
    {
      MoveWall(Left);
    }

    /** move_right_wall; the player id it takes is not used. */
    method MoveRightWall(player: int)
      requires Valid() && CursorOk()
      modifies this`posxWall, this`posyWall, this`isOverlapped, this`isPreviousOverlapped, this`isOut
      modifies overlapPos, opponentWall
      ensures CursorOk() && CursorMoved(Right)
    {
      MoveWall(Right);
    }

    /** move_up_wall; the player id it takes is not used. */
    method MoveUpWall(player: int)
      requires Valid() && CursorOk()
      modifies this`posxWall, this`posyWall, this`isOverlapped, this`isPreviousOverlapped, this`isOut
      modifies overlapPos, opponentWall
      ensures CursorOk() && CursorMoved(Up)
    {
      MoveWall(Up);
    }

    /** Turns the wall a quarter turn about its middle position and updates
        the overlap flags and record for the new position. */
    method RotateWall()
      requires Valid() && CursorOk()
      modifies this`horizontal, this`vertical, this`posxWall, this`posyWall
      modifies this`isOverlapped, this`isPreviousOverlapped, overlapPos, opponentWall
      ensures CursorOk() && Cursor() == Rotate(old(Cursor()))
      ensures (isOverlapped <==> |Collisions(grid, Cursor())| > 0) && isPreviousOverlapped == isOverlapped
      ensures Records(Collisions(grid, Cursor()))
    {
      if horizontal {
        horizontal := false;
        vertical := true;
        posxWall := posxWall + 1;
        posyWall := posyWall - 1;
      } else {
        vertical := false;
        horizontal := true;
        posxWall := posxWall - 1;
        posyWall := posyWall + 1;
      }
      var overlap := IsOverlappedWall(posxWall, posyWall);
      isOverlapped, isPreviousOverlapped := overlap, overlap;
    }

    /** Clears the search scratch state: every visited mark and every queue entry. */
    method ResetMatrix()
      requires Valid()
      modifies visited, queue
      ensures forall r, c :: 0 <= r < Side && 0 <= c < Side ==> !visited[r, c]
      ensures forall k, l :: 0 <= k < Side * Side * 4 && 0 <= l < 2 ==> queue[k, l] == 0
    {
      for i := 0 to Side
        invariant forall r, c :: 0 <= r < i && 0 <= c < Side ==> !visited[r, c]
      {
        for j := 0 to Side
          invariant forall r, c :: 0 <= r < i && 0 <= c < Side ==> !visited[r, c]
          invariant forall c :: 0 <= c < j ==> !visited[i, c]
        {
          visited[i, j] := false;
        }
      }
      for i := 0 to Side * Side * 4
        invariant forall k, l :: 0 <= k < i && 0 <= l < 2 ==> queue[k, l] == 0
        invariant forall r, c :: 0 <= r < Side && 0 <= c < Side ==> !visited[r, c]
      {
        queue[i, 0] := 0;
        queue[i, 1] := 0;
      }
    }

    /** Whether no wall separates cell (currentRow, currentCol) from the
        adjacent cell (newRow, newCol): the slot between them is free. */
    method NoWallBetween(currentRow: int, currentCol: int, newRow: int, newCol: int) returns (free: bool)
      requires Synced()
      requires OnBoard(Cell(currentRow, currentCol)) && OnBoard(Cell(newRow, newCol))
      requires Adjacent(Cell(currentRow, currentCol), Cell(newRow, newCol))
      ensures free <==> Open(grid, Cell(currentRow, currentCol), Cell(newRow, newCol))
      ensures free <==> grid[currentRow + newRow][currentCol + newCol] == Free
    {
      if currentRow == newRow {
        if currentCol < newCol {
          if board[currentRow * 2, currentCol * 2 + 1] != Free {
            return false;
          }
        } else {
          if board[currentRow * 2, currentCol * 2 - 1] != Free {
            return false;
          }
        }
      }
      if currentCol == newCol {
        if currentRow < newRow {
          if board[currentRow * 2 + 1, currentCol * 2] != Free {
            return false;
          }
        } else {
          if board[currentRow * 2 - 1, currentCol * 2] != Free {
            return false;
          }
        }
      }
      return true;
    }

    /** The scratch arrays hold the trail: the first rear + 1 queue entries
        are its cells in order, and the visited marks are exactly its cells. */
    ghost predicate Stored(rear: int, t: Trail)
      reads visited, queue
    {
      && visited.Length0 == Side && visited.Length1 == Side && queue.Length0 == Side * Side * 4 && queue.Length1 == 2
      && |t.order| == rear + 1 <= Side * Side
      && (forall r, c {:trigger visited[r, c]} :: 0 <= r < Side && 0 <= c < Side ==> (visited[r, c] <==> Cell(r, c) in t.seen))
      && (forall k :: 0 <= k < |t.order| ==> queue[k, 0] == t.order[k].row && queue[k, 1] == t.order[k].col)
    }

    /** Appends the unvisited board cell `b` to the queue and marks it
        visited; the trail gains `b`, reached through `t.order[from]`. */
    method Push(rear: int, b: Cell, ghost from: int, ghost t: Trail) returns (newRear: int, ghost u: Trail)
      requires Stored(rear, t) && OnBoard(b) && b !in t.seen && 0 <= from < |t.walks| && |t.order| < Side * Side
      modifies visited, queue
      ensures Stored(newRear, u) && u == Extend(t, from, b)
    {
      newRear := rear + 1;
      queue[newRear, 0] := b.row;
      queue[newRear, 1] := b.col;
      visited[b.row, b.col] := true;
      u := Extend(t, from, b);
    }

    /** Visits the four neighbours of the cell popped from `t.order[from]`, in
        the order of `Neighbors`. Afterwards every cell one open step away
        from it is on the trail. */
    method Expand(rear: int, currentRow: int, currentCol: int, ghost from: int, ghost t: Trail, ghost start: Cell)
      returns (newRear: int, ghost u: Trail)
      requires Valid() && Explored(grid, t, start) && Stored(rear, t)
      requires 0 <= from < |t.order| && t.order[from] == Cell(currentRow, currentCol)
      modifies visited, queue
      ensures Explored(grid, u, start) && Stored(newRear, u) && Grows(t, u)
      ensures forall b :: Open(grid, Cell(currentRow, currentCol), b) ==> b in u.seen
    {
      var cur := Cell(currentRow, currentCol);
      newRear, u := rear, t;
      for i := 0 to 4
        invariant Explored(grid, u, start) && Stored(newRear, u) && Grows(t, u)
        invariant Covered(grid, cur, i, u.seen)
      {
        ghost var before := u;
        newRear, u := Visit(newRear, currentRow, currentCol, i, from, u, start);
        GrowsTrans(t, before, u);
        CoveredStep(grid, cur, i, before.seen, u.seen);
      }
      CoveredAll(grid, cur, u.seen);
    }

    /** Visits neighbour `i` of the cell popped from `t.order[from]`: queues
        it when it is on the board, not yet visited and not walled off. */
    method Visit(rear: int, currentRow: int, currentCol: int, i: int, ghost from: int, ghost t: Trail, ghost start: Cell)
      returns (newRear: int, ghost u: Trail)
      requires Valid() && Explored(grid, t, start) && Stored(rear, t) && 0 <= i < 4
      requires 0 <= from < |t.order| && t.order[from] == Cell(currentRow, currentCol)
      modifies visited, queue
      ensures Explored(grid, u, start) && Stored(newRear, u) && Grows(t, u)
      ensures var n := NeighborCell(Cell(currentRow, currentCol), i);
        Open(grid, Cell(currentRow, currentCol), n) ==> n in u.seen
    {
      newRear, u := rear, t;
      var newRow := currentRow + Neighbors[i].0;
      var newCol := currentCol + Neighbors[i].1;
      ghost var n := Cell(newRow, newCol);
      assert n == NeighborCell(Cell(currentRow, currentCol), i);
      if 0 <= newRow < Side && 0 <= newCol < Side && !visited[newRow, newCol] {
        var free := NoWallBetween(currentRow, currentCol, newRow, newCol);
        if free {
          ExtendExplored(grid, t, start, from, n);
          newRear, u := Push(rear, Cell(newRow, newCol), from, t);
        }
      } else if 0 <= newRow < Side && 0 <= newCol < Side {
        assert n in t.seen;
      }
    }

    /** The search loop: pops cells in queue order until one lies in row
        `goal`, expanding each popped cell. It reports whether `start` has an
        open walk to row `goal`. */
    method Search(start: Cell, goal: int) returns (escaped: bool)
      requires Valid() && OnBoard(start) && Stored(0, Trail([start], {start}, [[start]]))
      modifies visited, queue
      ensures escaped <==> Escapes(grid, start, goal)
    {
      ghost var t := Trail([start], {start}, [[start]]);
      StartTrail(grid, start, goal);
      var front, rear := 0, 0;
      while front <= rear
        invariant Explored(grid, t, start) && Stored(rear, t) && Expanded(grid, t, front, goal)
        decreases Side * Side - front
      {
        var found;
        found, front, rear, t := Pop(front, rear, t, start, goal);
        if found {
          return true;
        }
      }
      TrailTraps(grid, t, start, goal);
      return false;
    }

    /** One round of the search: pops the cell at `front`; when it lies in
        row `goal` the start escapes, otherwise its neighbours are visited. */
    method Pop(front: int, rear: int, ghost t: Trail, ghost start: Cell, goal: int)
      returns (found: bool, newFront: int, newRear: int, ghost u: Trail)
      requires Valid() && Explored(grid, t, start) && Stored(rear, t) && Expanded(grid, t, front, goal) && front <= rear
      modifies visited, queue
      ensures newFront == front + 1
      ensures found ==> Escapes(grid, start, goal)
      ensures !found ==> Explored(grid, u, start) && Stored(newRear, u) && Expanded(grid, u, newFront, goal)
    {
      var currentRow := queue[front, 0];
      var currentCol := queue[front, 1];
      newFront := front + 1;
      if currentRow == goal {
        TrailEscapes(grid, t, start, front, goal);
        return true, newFront, rear, t;
      }
      found := false;
      newRear, u := Expand(rear, currentRow, currentCol, front, t, start);
      ExpandedStep(grid, t, u, front, goal);
    }

    /** Seeds the cleared search state with the start cell: the first queue
        entry and the only visited mark. */
    method Enqueue(startRow: int, startCol: int)
      requires Valid() && OnBoard(Cell(startRow, startCol))
      requires forall r, c :: 0 <= r < Side && 0 <= c < Side ==> !visited[r, c]
      modifies visited, queue
      ensures Stored(0, Trail([Cell(startRow, startCol)], {Cell(startRow, startCol)}, [[Cell(startRow, startCol)]]))
    {
      queue[0, 0] := startRow;
      queue[0, 1] := startCol;
      visited[startRow, startCol] := true;
    }

    /** Whether committing the wall at (x, y), in the cursor's orientation,
        would leave `player` without an open walk to its goal row. The wall is
        written with the player's code for the search; a wall that traps is
        erased again (all three positions set free), one that does not is
        left on the board. */
    method IsTrappola(player: int, x: int, y: int) returns (trapped: bool)
      requires Valid() && OnBoard(Mover(player)) && InBounds(Wall(horizontal, x, y))
      modifies board, this`grid, visited, queue
      ensures Valid()
      ensures trapped <==> !Escapes(PutWall(old(grid), Wall(horizontal, x, y), WallCode(player)), Mover(player), GoalRow(player))
      ensures grid == PutWall(old(grid), Wall(horizontal, x, y), if trapped then Free else WallCode(player))
    {
      ResetMatrix();
      var startRow, startCol, code, end;
      if player == 1 {
        startRow, startCol, code, end := rowPlayer1 / 2, colPlayer1 / 2, Player1Wall, Side - 1;
      } else {
        startRow, startCol, code, end := rowPlayer2 / 2, colPlayer2 / 2, Player2Wall, 0;
      }
      Enqueue(startRow, startCol);
      PlaceWallCells(x, y, code);
      var escaped := Search(Cell(startRow, startCol), end);
      if escaped {
        return false;
      }
      PlaceWallCells(x, y, Free);
      PutWallOverride(old(grid), Wall(horizontal, x, y), code, Free);
      return true;
    }

    /** Commits the cursor wall for the player whose turn has started, unless
        it traps either player: both trap checks run first, each on the board
        left by the one before, and only then is the wall written with the
        mover's code and the turn ended. When a check traps, no turn ends, and
        the board keeps whatever the second check left: the wall with code 4
        when only player 1 was trapped. */
    method PositionWall()
      requires Valid() && CursorOk() && OnBoard(Mover(1)) && OnBoard(Mover(2))
      modifies board, this`grid, visited, queue, this`trap1, this`trap2, this`endTurn1, this`endTurn2
      ensures Valid() && (old(InPlay()) ==> InPlay())
      ensures trap1 <==> !Escapes(PutWall(old(grid), Cursor(), Player1Wall), Mover(1), Side - 1)
      ensures trap2 <==> !Escapes(PutWall(old(grid), Cursor(), Player2Wall), Mover(2), 0)
      ensures if startTurn1 && !trap1 && !trap2 then
          grid == PutWall(old(grid), Cursor(), Player1Wall) && endTurn1 && endTurn2 == old(endTurn2)
        else if startTurn2 && !trap1 && !trap2 then
          grid == PutWall(old(grid), Cursor(), Player2Wall) && endTurn2 && endTurn1 == old(endTurn1)
        else
          grid == PutWall(old(grid), Cursor(), if trap2 then Free else Player2Wall)
          && endTurn1 == old(endTurn1) && endTurn2 == old(endTurn2)
    {
      ghost var g0, w, p1, p2 := grid, Cursor(), Mover(1), Mover(2);
      CheckTraps();
      assert Cursor() == w && Mover(1) == p1 && Mover(2) == p2;
      CommitWall(g0);
    }

    /** The part of a wall commit after both trap checks, on the board `g0`
        from before them: writes the wall for the player whose turn has
        started when neither check trapped, and ends that turn. */
    method CommitWall(ghost g0: Grid)
      requires Valid() && CursorOk() && IsGrid(g0)
      requires grid == PutWall(g0, Cursor(), if trap2 then Free else Player2Wall)
      modifies board, this`grid, this`endTurn1, this`endTurn2
      ensures Valid() && (Playing(g0, rowPlayer1, colPlayer1, rowPlayer2, colPlayer2) ==> InPlay())
      ensures if startTurn1 && !trap1 && !trap2 then
          grid == PutWall(g0, Cursor(), Player1Wall) && endTurn1 && endTurn2 == old(endTurn2)
        else if startTurn2 && !trap1 && !trap2 then
          grid == PutWall(g0, Cursor(), Player2Wall) && endTurn2 && endTurn1 == old(endTurn1)
        else
          grid == PutWall(g0, Cursor(), if trap2 then Free else Player2Wall)
          && endTurn1 == old(endTurn1) && endTurn2 == old(endTurn2)
    {
      if startTurn1 && !trap1 && !trap2 {
        PlaceWallCells(posxWall, posyWall, Player1Wall);
        PutWallOverride(g0, Cursor(), Player2Wall, Player1Wall);
        endTurn1 := true;
      } else if startTurn2 && !trap1 && !trap2 {
        PlaceWallCells(posxWall, posyWall, Player2Wall);
        PutWallOverride(g0, Cursor(), Player2Wall, Player2Wall);
        endTurn2 := true;
      }
      if Playing(g0, rowPlayer1, colPlayer1, rowPlayer2, colPlayer2) {
        WallKeepsPlaying(g0, Cursor(), if startTurn1 && !trap1 && !trap2 then Player1Wall else if trap2 then Free else Player2Wall,
                         rowPlayer1, colPlayer1, rowPlayer2, colPlayer2);
      }
    }

    /** Runs the trap check for player 1 and then for player 2 on the cursor
        wall and stores both verdicts. The second check overwrites what the
        first left, so the board ends with the wall erased when player 2 is
        trapped and holding code 4 otherwise. */
    method CheckTraps()
      requires Valid() && CursorOk() && OnBoard(Mover(1)) && OnBoard(Mover(2))
      modifies board, this`grid, visited, queue, this`trap1, this`trap2
      ensures Valid()
      ensures trap1 <==> !Escapes(PutWall(old(grid), Cursor(), Player1Wall), Mover(1), Side - 1)
      ensures trap2 <==> !Escapes(PutWall(old(grid), Cursor(), Player2Wall), Mover(2), 0)
      ensures grid == PutWall(old(grid), Cursor(), if trap2 then Free else Player2Wall)
    {
      ghost var g0, w, p1, p2 := grid, Cursor(), Mover(1), Mover(2);
      ghost var e1, e2 := Escapes(PutWall(g0, w, Player1Wall), p1, Side - 1), Escapes(PutWall(g0, w, Player2Wall), p2, 0);
      var t1 := IsTrappola(1, posxWall, posyWall);
      assert t1 <==> !e1;
      ghost var g1 := grid;
      PutWallOverride(g0, w, if t1 then Free else Player1Wall, Player2Wall);
      PutWallOverride(g0, w, if t1 then Free else Player1Wall, Free);
      var t2 := IsTrappola(2, posxWall, posyWall);
      assert t2 <==> !e2;
      trap1, trap2 := t1, t2;
    }
  }
}
