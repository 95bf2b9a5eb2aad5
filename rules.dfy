/** The rules the engine decides on a board value: where a token may go, and
    which positions of a candidate wall are already taken. */
module Rules {
  import opened Board

  predicate Adjacent(a: Cell, b: Cell) {
    || (a.row == b.row && (a.col - b.col == 1 || b.col - a.col == 1))
    || (a.col == b.col && (a.row - b.row == 1 || b.row - a.row == 1))
  }

  /** The content of packed position (i, j), or free off the board. */
  function At(g: Grid, i: int, j: int): int
    requires IsGrid(g)
  {
    if InPacked(i, j) then g[i][j] else Free
  }

  /** A single step from `a` to `b` that no wall blocks. */
  predicate Open(g: Grid, a: Cell, b: Cell)
    requires IsGrid(g)
  {
    OnBoard(a) && OnBoard(b) && Adjacent(a, b) && At(g, a.row + b.row, a.col + b.col) == Free
  }

  /** What a token at `at` may do in direction `d`. */
  datatype Outcome = Blocked | Advance | Jump

  /** The move decision, read off the packed board: off the board is
      blocked; a free neighbour is reached unless the slot between holds a
      wall; an occupied neighbour is jumped over when the cell beyond is on the
      board and neither the slot before nor the slot after the neighbour holds
      a wall. There is no diagonal jump. */
  function Resolve(g: Grid, at: Cell, d: Direction): Outcome
    requires IsGrid(g)
  {
    Decide(g, at, Shift(at, d, 1), Shift(at, d, 2))
  }

  /** The move decision for a token at `at` whose neighbour in the direction
      of the move is `next`, and the cell beyond it `beyond`. */
  function Decide(g: Grid, at: Cell, next: Cell, beyond: Cell): Outcome
    requires IsGrid(g)
  {
    if !OnBoard(next) then Blocked
    else if TokenAt(g, next) == Free then
      if At(g, at.row + next.row, at.col + next.col) == Free then Advance else Blocked
    else if OnBoard(beyond) && At(g, at.row + next.row, at.col + next.col) == Free
      && At(g, next.row + beyond.row, next.col + beyond.col) == Free then Jump
    else Blocked
  }

  /** Where a token at `at` lands when it moves in direction `d`. */
  function Target(g: Grid, at: Cell, d: Direction): (to: Cell)
    requires IsGrid(g) && OnBoard(at)
    ensures Resolve(g, at, d) != Blocked ==> OnBoard(to)
  {
    if Resolve(g, at, d) == Jump then Shift(at, d, 2) else Shift(at, d, 1)
  }

  /** One boolean per direction, as the engine keeps its per-direction flags. */
  datatype Moves = Moves(down: bool, left: bool, right: bool, up: bool)
  {
    function Get(d: Direction): bool {
      match d
      case Down => down
      case Left => left
      case Right => right
      case Up => up
    }
  }

  /** The possible-move flags after a scan from `at`: a blocked direction is
      cleared, the others keep their value. */
  function Narrowed(p: Moves, g: Grid, at: Cell): Moves
    requires IsGrid(g) && OnBoard(at)
  {
    Moves(p.down && Resolve(g, at, Down) != Blocked, p.left && Resolve(g, at, Left) != Blocked,
          p.right && Resolve(g, at, Right) != Blocked, p.up && Resolve(g, at, Up) != Blocked)
  }

  /** The face-to-face flags after a scan from `at`: a direction with a jump
      is set, the others keep their value. */
  function Widened(f: Moves, g: Grid, at: Cell): Moves
    requires IsGrid(g) && OnBoard(at)
  {
    Moves(f.down || Resolve(g, at, Down) == Jump, f.left || Resolve(g, at, Left) == Jump,
          f.right || Resolve(g, at, Right) == Jump, f.up || Resolve(g, at, Up) == Jump)
  }

  /** A scan from the mover's cell, with both tokens on the board, read in
      terms of the board: a direction stays possible exactly when it was
      possible, the neighbour is one open step away and, when the neighbour
      is the opponent, the cell beyond is one more open step away; it is
      flagged face to face exactly when it was, or the neighbour is the
      opponent and both steps are open. */
  lemma ScanFlags(p: Moves, f: Moves, g: Grid, mover: Cell, other: Cell, d: Direction)
    requires IsGrid(g) && (TokensAt(g, mover, other) || TokensAt(g, other, mover))
    ensures var next, beyond := Shift(mover, d, 1), Shift(mover, d, 2);
      && (Narrowed(p, g, mover).Get(d) <==>
            p.Get(d) && Open(g, mover, next) && (next == other ==> Open(g, next, beyond)))
      && (Widened(f, g, mover).Get(d) <==>
            f.Get(d) || (next == other && Open(g, mover, next) && Open(g, next, beyond)))
  {
    ResolveOpen(g, mover, other, d);
  }

  /** The move decision in terms of open steps, with both tokens on the board. */
  lemma ResolveOpen(g: Grid, mover: Cell, other: Cell, d: Direction)
    requires IsGrid(g) && (TokensAt(g, mover, other) || TokensAt(g, other, mover))
    ensures var next, beyond := Shift(mover, d, 1), Shift(mover, d, 2);
      && (Resolve(g, mover, d) != Blocked <==> Open(g, mover, next) && (next == other ==> Open(g, next, beyond)))
      && (Resolve(g, mover, d) == Jump <==> next == other && Open(g, mover, next) && Open(g, next, beyond))
  {
    var next := Shift(mover, d, 1);
    ShiftSteps(mover, d);
    if OnBoard(next) {
      assert next != mover;
      assert TokenAt(g, next) != Free <==> next == other;
    }
    ResolveOpenAt(g, mover, other, d);
  }

  /** The move decision in terms of open steps, given which cells hold a token. */
  lemma ResolveOpenAt(g: Grid, mover: Cell, other: Cell, d: Direction)
    requires IsGrid(g) && OnBoard(mover) && OnBoard(other)
    requires OnBoard(Shift(mover, d, 1)) ==> (TokenAt(g, Shift(mover, d, 1)) != Free <==> Shift(mover, d, 1) == other)
    ensures var next, beyond := Shift(mover, d, 1), Shift(mover, d, 2);
      && (Resolve(g, mover, d) != Blocked <==> Open(g, mover, next) && (next == other ==> Open(g, next, beyond)))
      && (Resolve(g, mover, d) == Jump <==> next == other && Open(g, mover, next) && Open(g, next, beyond))
  {
    ResolveBySteps(g, mover, d);
  }

  /** The token cells hold exactly the two tokens: 1 at `p1`, 2 at `p2`, 0 elsewhere. */
  ghost predicate TokensAt(g: Grid, p1: Cell, p2: Cell)
    requires IsGrid(g)
  {
    && OnBoard(p1) && OnBoard(p2) && p1 != p2
    && forall c {:trigger TokenAt(g, c)} :: OnBoard(c) ==> TokenAt(g, c) == if c == p1 then 1 else if c == p2 then 2 else Free
  }

  /** Every wall slot is free or holds a wall segment of one of the players. */
  ghost predicate WallCodes(g: Grid)
    requires IsGrid(g)
  {
    forall i, j {:trigger g[i][j]} :: InPacked(i, j) && IsSlot(i, j) ==> g[i][j] in {Free, Player1Wall, Player2Wall}
  }

  /** One and two steps in a direction reach a neighbour and then its neighbour. */
  lemma ShiftSteps(c: Cell, d: Direction)
    ensures Adjacent(c, Shift(c, d, 1)) && Adjacent(Shift(c, d, 1), Shift(c, d, 2))
  {
  }

  /** The move decision in each direction, with the packed positions it reads written out. */
  lemma ResolveDown(g: Grid, at: Cell)
    requires IsGrid(g) && OnBoard(at)
    ensures var r, c := 2 * at.row, 2 * at.col;
      Resolve(g, at, Down) ==
        if at.row + 1 >= Side then Blocked
        else if g[r + 2][c] == Free then (if g[r + 1][c] == Free then Advance else Blocked)
        else if at.row + 2 < Side && g[r + 1][c] == Free && g[r + 3][c] == Free then Jump
        else Blocked
  {
    assert Shift(at, Down, 1) == Cell(at.row + 1, at.col) && Shift(at, Down, 2) == Cell(at.row + 2, at.col);
  }

  lemma ResolveLeft(g: Grid, at: Cell)
    requires IsGrid(g) && OnBoard(at)
    ensures var r, c := 2 * at.row, 2 * at.col;
      Resolve(g, at, Left) ==
        if at.col < 1 then Blocked
        else if g[r][c - 2] == Free then (if g[r][c - 1] == Free then Advance else Blocked)
        else if at.col >= 2 && g[r][c - 1] == Free && g[r][c - 3] == Free then Jump
        else Blocked
  {
    assert Shift(at, Left, 1) == Cell(at.row, at.col - 1) && Shift(at, Left, 2) == Cell(at.row, at.col - 2);
  }

  lemma ResolveRight(g: Grid, at: Cell)
    requires IsGrid(g) && OnBoard(at)
    ensures var r, c := 2 * at.row, 2 * at.col;
      Resolve(g, at, Right) ==
        if at.col + 1 >= Side then Blocked
        else if g[r][c + 2] == Free then (if g[r][c + 1] == Free then Advance else Blocked)
        else if at.col + 2 < Side && g[r][c + 1] == Free && g[r][c + 3] == Free then Jump
        else Blocked
  {
    assert Shift(at, Right, 1) == Cell(at.row, at.col + 1) && Shift(at, Right, 2) == Cell(at.row, at.col + 2);
  }

  lemma ResolveUp(g: Grid, at: Cell)
    requires IsGrid(g) && OnBoard(at)
    ensures var r, c := 2 * at.row, 2 * at.col;
      Resolve(g, at, Up) ==
        if at.row < 1 then Blocked
        else if g[r - 2][c] == Free then (if g[r - 1][c] == Free then Advance else Blocked)
        else if at.row >= 2 && g[r - 1][c] == Free && g[r - 3][c] == Free then Jump
        else Blocked
  {
    assert Shift(at, Up, 1) == Cell(at.row - 1, at.col) && Shift(at, Up, 2) == Cell(at.row - 2, at.col);
  }

  /** What the move decision reads: a move that is not blocked makes an open
      step to the neighbour, and it is a jump exactly when that neighbour holds
      a token, in which case a second open step leads one cell further. */
  lemma ResolveSteps(g: Grid, at: Cell, d: Direction)
    requires IsGrid(g) && OnBoard(at) && Resolve(g, at, d) != Blocked
    ensures Open(g, at, Shift(at, d, 1))
    ensures Resolve(g, at, d) == Jump <==> TokenAt(g, Shift(at, d, 1)) != Free
    ensures Resolve(g, at, d) == Jump ==> Open(g, Shift(at, d, 1), Shift(at, d, 2))
  {
    ResolveBySteps(g, at, d);
  }

  /** The move decision stated by open steps instead of packed positions: a
      move is blocked unless the step to the neighbour is open; it advances
      onto a free neighbour, and it jumps over an occupied one when the step
      beyond is open too. */
  function ByOpenSteps(g: Grid, at: Cell, next: Cell, beyond: Cell): Outcome
    requires IsGrid(g)
  {
    if !Open(g, at, next) then Blocked
    else if TokenAt(g, next) == Free then Advance
    else if Open(g, next, beyond) then Jump
    else Blocked
  }

  /** For a neighbour and the cell beyond it, the decision read off the
      packed board agrees with its statement by open steps. */
  lemma DecideBySteps(g: Grid, at: Cell, next: Cell, beyond: Cell)
    requires IsGrid(g) && OnBoard(at) && Adjacent(at, next) && Adjacent(next, beyond)
    ensures Decide(g, at, next, beyond) == ByOpenSteps(g, at, next, beyond)
  {
    assert Open(g, at, next) <==> OnBoard(next) && At(g, at.row + next.row, at.col + next.col) == Free;
    assert Open(g, next, beyond) <==> OnBoard(next) && OnBoard(beyond) && At(g, next.row + beyond.row, next.col + beyond.col) == Free;
  }

  /** The move decision agrees with its statement by open steps. */
  lemma ResolveBySteps(g: Grid, at: Cell, d: Direction)
    requires IsGrid(g) && OnBoard(at)
    ensures Resolve(g, at, d) == ByOpenSteps(g, at, Shift(at, d, 1), Shift(at, d, 2))
  {
    ShiftSteps(at, d);
    DecideBySteps(g, at, Shift(at, d, 1), Shift(at, d, 2));
  }

  /** A move that is not blocked lands on a free cell of the board, never on
      either token; it is a jump exactly when the opponent is the neighbour,
      and then it lands two cells beyond the mover, one beyond the opponent. */
  lemma MoveLandsFree(g: Grid, mover: Cell, other: Cell, d: Direction)
    requires IsGrid(g)
    requires TokensAt(g, mover, other) || TokensAt(g, other, mover)
    requires Resolve(g, mover, d) != Blocked
    ensures var to := Target(g, mover, d);
      && OnBoard(to) && to != mover && to != other && TokenAt(g, to) == Free
      && Open(g, mover, Shift(mover, d, 1))
      && (Resolve(g, mover, d) == Jump <==> Shift(mover, d, 1) == other)
      && (Resolve(g, mover, d) == Jump ==> to == Shift(other, d, 1) && Open(g, other, to))
  {
    var next := Shift(mover, d, 1);
    ResolveSteps(g, mover, d);
    assert TokenAt(g, other) != Free;
    if Resolve(g, mover, d) == Jump {
      assert next == other;
      assert Target(g, mover, d) == Shift(next, d, 1);
    } else {
      assert Target(g, mover, d) == next;
    }
  }

  /** The board at the start of a match holds the two tokens in the middle
      of rows 0 and 6 and no wall. */
  lemma StartingBoard()
    ensures var g := Put(Put(EmptyGrid(), 0, 6, 1), 12, 6, 2);
      && TokensAt(g, Cell(0, 3), Cell(6, 3)) && WallCodes(g)
      && forall i, j :: InPacked(i, j) && IsSlot(i, j) ==> g[i][j] == Free
  {
  }

  /** Moving one token to a free cell of the board, by clearing its old cell
      and writing its id into the new one, keeps the board holding exactly
      the two tokens, and leaves every wall slot unchanged. */
  lemma StepKeepsTokens(g: Grid, p1: Cell, p2: Cell, to: Cell, first: bool)
    requires IsGrid(g) && TokensAt(g, p1, p2) && WallCodes(g)
    requires OnBoard(to) && TokenAt(g, to) == Free
    ensures first ==>
      var h := Put(Put(g, 2 * p1.row, 2 * p1.col, Free), 2 * to.row, 2 * to.col, 1);
      && TokensAt(h, to, p2) && WallCodes(h)
      && forall i, j :: InPacked(i, j) && IsSlot(i, j) ==> h[i][j] == g[i][j]
    ensures !first ==>
      var h := Put(Put(g, 2 * p2.row, 2 * p2.col, Free), 2 * to.row, 2 * to.col, 2);
      && TokensAt(h, p1, to) && WallCodes(h)
      && forall i, j :: InPacked(i, j) && IsSlot(i, j) ==> h[i][j] == g[i][j]
  {
    assert to != p1 && to != p2;
    var id, old_ := if first then 1 else 2, if first then p1 else p2;
    var h := Put(Put(g, 2 * old_.row, 2 * old_.col, Free), 2 * to.row, 2 * to.col, id);
    forall c | OnBoard(c)
      ensures TokenAt(h, c) == if c == to then id else if c == old_ then Free else TokenAt(g, c)
    {
    }
  }

  /** Writing a wall, or erasing one, keeps the tokens where they are and the
      wall slots holding wall codes. */
  lemma WallWriteKeepsTokens(g: Grid, w: Wall, v: int, p1: Cell, p2: Cell)
    requires IsGrid(g) && InBounds(w) && v in {Free, Player1Wall, Player2Wall}
    requires TokensAt(g, p1, p2) && WallCodes(g)
    ensures TokensAt(PutWall(g, w, v), p1, p2) && WallCodes(PutWall(g, w, v))
  {
    var h := PutWall(g, w, v);
    forall c | OnBoard(c)
      ensures TokenAt(h, c) == TokenAt(g, c)
    {
      PutWallAt(g, w, v, 2 * c.row, 2 * c.col);
    }
    forall i, j | InPacked(i, j) && IsSlot(i, j)
      ensures h[i][j] in {Free, Player1Wall, Player2Wall}
    {
      PutWallAt(g, w, v, i, j);
    }
  }

  /** One position of a candidate wall that is already taken, with the owner
      code recorded for it: 3 when the position holds 3, 4 otherwise. */
  datatype Collision = Collision(row: int, col: int, owner: int)

  /** The taken positions among the first `n` positions of wall `w`, in scan order. */
  function Scan(g: Grid, w: Wall, n: nat): (s: seq<Collision>)
    requires IsGrid(g) && InBounds(w) && n <= 3
    ensures |s| <= n
    decreases n
  {
    if n == 0 then []
    else
      var p := WallCell(w, n - 1);
      Scan(g, w, n - 1) + if g[p.0][p.1] != Free then [Collision(p.0, p.1, if g[p.0][p.1] == Player1Wall then Player1Wall else Player2Wall)] else []
  }

  /** The taken positions of wall `w`, in scan order. */
  function Collisions(g: Grid, w: Wall): seq<Collision>
    requires IsGrid(g) && InBounds(w)
  {
    Scan(g, w, 3)
  }

  /** The index along wall `w` of a listed position: its offset from the
      wall's first position. */
  function Slot(w: Wall, c: Collision): int {
    if w.horizontal then c.col - (2 * w.x + 2) else c.row - (2 * w.y + 2)
  }

  /** The scan lists exactly the taken positions among the first `n`: each
      listed entry is a taken position of the wall, with an owner code of 3
      or 4 that is 3 exactly when the position holds 3; the entries follow
      the wall's scan order, so each position is listed once; and every taken
      position is listed. */
  lemma ScanListsTaken(g: Grid, w: Wall, n: nat)
    requires IsGrid(g) && InBounds(w) && n <= 3
    ensures var s := Scan(g, w, n);
      && |s| <= n
      && (|s| == 0 <==> forall i :: 0 <= i < n ==> !Taken(g, w, i))
      && (forall k :: 0 <= k < |s| ==> Listed(g, w, n, s[k]))
      && (forall k, l :: 0 <= k < l < |s| ==> Slot(w, s[k]) < Slot(w, s[l]))
      && (forall i :: 0 <= i < n && Taken(g, w, i) ==>
            exists k :: 0 <= k < |s| && Slot(w, s[k]) == i)
  {
    ScanSound(g, w, n);
    ScanOrdered(g, w, n);
    ScanComplete(g, w, n);
    ScanEmpty(g, w, n);
  }

  /** Position `i` of wall `w` holds a token or a wall segment. */
  predicate Taken(g: Grid, w: Wall, i: int)
    requires IsGrid(g) && InBounds(w) && 0 <= i < 3
  {
    g[WallCell(w, i).0][WallCell(w, i).1] != Free
  }

  /** A taken position among the first `n` of wall `w`, with the owner code
      the scan records for it. */
  predicate Listed(g: Grid, w: Wall, n: nat, e: Collision)
    requires IsGrid(g) && InBounds(w) && n <= 3
  {
    && 0 <= Slot(w, e) < n && WallCell(w, Slot(w, e)) == (e.row, e.col)
    && g[e.row][e.col] != Free
    && e.owner in {Player1Wall, Player2Wall}
    && (e.owner == Player1Wall <==> g[e.row][e.col] == Player1Wall)
  }

  /** Each entry of the scan is a taken position of the wall with its owner code. */
  lemma {:induction false} ScanSound(g: Grid, w: Wall, n: nat)
    requires IsGrid(g) && InBounds(w) && n <= 3
    ensures forall k :: 0 <= k < |Scan(g, w, n)| ==> Listed(g, w, n, Scan(g, w, n)[k])
  {
    if n > 0 {
      ScanSound(g, w, n - 1);
      ScanStep(g, w, n);
      var s, t := Scan(g, w, n), Scan(g, w, n - 1);
      forall k | 0 <= k < |s|
        ensures Listed(g, w, n, s[k])
      {
        if k < |t| {
          assert s[k] == t[k];
          assert Listed(g, w, n - 1, t[k]);
        }
      }
    }
  }

  /** The entries of the scan follow the wall's scan order. */
  lemma {:induction false} ScanOrdered(g: Grid, w: Wall, n: nat)
    requires IsGrid(g) && InBounds(w) && n <= 3
    ensures var s := Scan(g, w, n);
      forall k, l :: 0 <= k < l < |s| ==> Slot(w, s[k]) < Slot(w, s[l])
  {
    if n > 0 {
      ScanOrdered(g, w, n - 1);
      ScanSound(g, w, n - 1);
      ScanStep(g, w, n);
      var s, t := Scan(g, w, n), Scan(g, w, n - 1);
      forall k, l | 0 <= k < l < |s|
        ensures Slot(w, s[k]) < Slot(w, s[l])
      {
        assert s[k] == t[k];
        assert Listed(g, w, n - 1, t[k]);
        if l < |t| {
          assert s[l] == t[l];
        }
      }
    }
  }

  /** Every taken position among the first `n` has an entry in the scan. */
  lemma {:induction false} ScanComplete(g: Grid, w: Wall, n: nat)
    requires IsGrid(g) && InBounds(w) && n <= 3
    ensures var s := Scan(g, w, n);
      forall i :: 0 <= i < n && Taken(g, w, i) ==>
        exists k :: 0 <= k < |s| && Slot(w, s[k]) == i
  {
    if n > 0 {
      ScanComplete(g, w, n - 1);
      ScanStep(g, w, n);
      var s, t := Scan(g, w, n), Scan(g, w, n - 1);
      forall i | 0 <= i < n && Taken(g, w, i)
        ensures exists k :: 0 <= k < |s| && Slot(w, s[k]) == i
      {
        if i < n - 1 {
          var k :| 0 <= k < |t| && Slot(w, t[k]) == i;
          assert s[k] == t[k];
        } else {
          assert Slot(w, s[|t|]) == i;
        }
      }
    }
  }

  /** The scan is empty exactly when none of the first `n` positions is taken. */
  lemma ScanEmpty(g: Grid, w: Wall, n: nat)
    requires IsGrid(g) && InBounds(w) && n <= 3
    ensures |Scan(g, w, n)| == 0 <==> forall i :: 0 <= i < n ==> !Taken(g, w, i)
  {
    var s := Scan(g, w, n);
    ScanComplete(g, w, n);
    if |s| > 0 {
      ScanSound(g, w, n);
      assert Listed(g, w, n, s[0]);
      var i := Slot(w, s[0]);
      assert Taken(g, w, i);
    }
  }

  /** What one more scanned position adds: an entry for it, at the end, when
      it is taken, and nothing otherwise. */
  lemma ScanStep(g: Grid, w: Wall, n: nat)
    requires IsGrid(g) && InBounds(w) && 0 < n <= 3
    ensures var s, t, p := Scan(g, w, n), Scan(g, w, n - 1), WallCell(w, n - 1);
      && |t| <= |s| && s[..|t|] == t
      && (g[p.0][p.1] == Free ==> s == t)
      && (g[p.0][p.1] != Free ==>
            && |s| == |t| + 1 && s[|t|].row == p.0 && s[|t|].col == p.1 && Slot(w, s[|t|]) == n - 1
            && s[|t|].owner == if g[p.0][p.1] == Player1Wall then Player1Wall else Player2Wall)
  {
  }

  /** A wall overlaps exactly when one of its three positions is taken. */
  lemma OverlapIffTaken(g: Grid, w: Wall)
    requires IsGrid(g) && InBounds(w)
    ensures |Collisions(g, w)| > 0 <==> exists i :: 0 <= i < 3 && Taken(g, w, i)
  {
    ScanListsTaken(g, w, 3);
  }
}
