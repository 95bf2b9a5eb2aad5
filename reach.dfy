/** Reachability on the 7×7 board: a walk is a sequence of cells where each
    step goes to an orthogonal neighbour that no wall separates; a player
    escapes when some walk from its cell ends in its goal row. */
module Reach {
  import opened Board
  import opened Rules

  ghost predicate IsWalk(g: Grid, p: seq<Cell>)
    requires IsGrid(g)
  {
    && |p| > 0 && OnBoard(p[0])
    && forall k :: 0 <= k < |p| - 1 ==> Open(g, p[k], p[k + 1])
  }

  /** Some walk from `start` ends in row `goal`. */
  ghost predicate Escapes(g: Grid, start: Cell, goal: int)
    requires IsGrid(g)
  {
    exists p: seq<Cell> :: IsWalk(g, p) && p[0] == start && p[|p| - 1].row == goal
  }

  /** A walk extended by one open step is a walk. */
  lemma WalkExtend(g: Grid, p: seq<Cell>, b: Cell)
    requires IsGrid(g) && IsWalk(g, p) && Open(g, p[|p| - 1], b)
    ensures IsWalk(g, p + [b])
  {
    var q := p + [b];
    forall k | 0 <= k < |q| - 1
      ensures Open(g, q[k], q[k + 1])
    {
      if k < |p| - 1 {
        assert q[k] == p[k] && q[k + 1] == p[k + 1];
      }
    }
  }

  /** A walk that starts inside a region closed under open steps stays inside it. */
  lemma {:induction false} WalkStaysInside(g: Grid, region: set<Cell>, p: seq<Cell>, k: nat)
    requires IsGrid(g) && IsWalk(g, p) && p[0] in region && k < |p|
    requires forall a, b :: a in region && Open(g, a, b) ==> b in region
    ensures p[k] in region
  {
    if k > 0 {
      WalkStaysInside(g, region, p, k - 1);
      assert Open(g, p[k - 1], p[k]);
    }
  }

  /** The exhausted breadth-first search: a region that contains the start, is
      closed under open steps and avoids the goal row proves that no walk
      escapes. */
  lemma ClosedRegionTraps(g: Grid, region: set<Cell>, start: Cell, goal: int)
    requires IsGrid(g) && start in region
    requires forall a, b :: a in region && Open(g, a, b) ==> b in region
    requires forall a :: a in region ==> a.row != goal
    ensures !Escapes(g, start, goal)
  {
    forall p: seq<Cell> | IsWalk(g, p) && p[0] == start
      ensures p[|p| - 1].row != goal
    {
      WalkStaysInside(g, region, p, |p| - 1);
    }
  }

  /** Only whether a slot is free matters to walks: two boards with the same
      free positions let exactly the same players escape. */
  lemma EscapesDependsOnFreeSlots(g1: Grid, g2: Grid, start: Cell, goal: int)
    requires IsGrid(g1) && IsGrid(g2)
    requires forall i, j :: InPacked(i, j) ==> (g1[i][j] == Free <==> g2[i][j] == Free)
    ensures Escapes(g1, start, goal) <==> Escapes(g2, start, goal)
  {
    forall p: seq<Cell> | |p| > 0
      ensures IsWalk(g1, p) <==> IsWalk(g2, p)
    {
      forall k | 0 <= k < |p| - 1
        ensures Open(g1, p[k], p[k + 1]) <==> Open(g2, p[k], p[k + 1])
      {
      }
    }
    if Escapes(g1, start, goal) {
      var p: seq<Cell> :| IsWalk(g1, p) && p[0] == start && p[|p| - 1].row == goal;
      assert IsWalk(g2, p);
    }
    if Escapes(g2, start, goal) {
      var p: seq<Cell> :| IsWalk(g2, p) && p[0] == start && p[|p| - 1].row == goal;
      assert IsWalk(g1, p);
    }
  }

  /** A committed wall of either owner blocks the same walks. */
  lemma WallOwnerIrrelevant(g: Grid, w: Wall, start: Cell, goal: int)
    requires IsGrid(g) && InBounds(w)
    ensures Escapes(PutWall(g, w, Player1Wall), start, goal) <==> Escapes(PutWall(g, w, Player2Wall), start, goal)
  {
    forall i, j | InPacked(i, j)
      ensures PutWall(g, w, Player1Wall)[i][j] == Free <==> PutWall(g, w, Player2Wall)[i][j] == Free
    {
      PutWallAt(g, w, Player1Wall, i, j);
      PutWallAt(g, w, Player2Wall, i, j);
    }
    EscapesDependsOnFreeSlots(PutWall(g, w, Player1Wall), PutWall(g, w, Player2Wall), start, goal);
  }

  /** The first `k` cells of row `r`. */
  function RowPrefix(r: int, k: nat): set<Cell> {
    if k == 0 then {} else RowPrefix(r, k - 1) + {Cell(r, k - 1)}
  }

  lemma {:induction false} RowPrefixExactly(r: int, k: nat)
    ensures |RowPrefix(r, k)| == k
    ensures forall c {:trigger c in RowPrefix(r, k)} :: c in RowPrefix(r, k) <==> c.row == r && 0 <= c.col < k
  {
    if k > 0 {
      RowPrefixExactly(r, k - 1);
    }
  }

  /** The cells of the first `k` rows of the board. */
  function RowsBelow(k: nat): set<Cell> {
    if k == 0 then {} else RowsBelow(k - 1) + RowPrefix(k - 1, Side)
  }

  lemma {:induction false} RowsBelowExactly(k: nat)
    ensures |RowsBelow(k)| == Side * k
    ensures forall c {:trigger c in RowsBelow(k)} :: c in RowsBelow(k) <==> 0 <= c.row < k && 0 <= c.col < Side
  {
    if k > 0 {
      RowsBelowExactly(k - 1);
      RowPrefixExactly(k - 1, Side);
      assert RowsBelow(k - 1) * RowPrefix(k - 1, Side) == {};
    }
  }

  /** A subset is no larger than its superset. */
  lemma SubsetNoLarger(a: set<Cell>, b: set<Cell>)
    requires a <= b
    ensures |a| <= |b|
  {
    assert b == a + (b - a);
  }

  /** Board cells all lie in the first `k` rows when their rows are below `k`. */
  lemma WithinRows(s: set<Cell>, k: nat)
    requires forall c :: c in s ==> 0 <= c.row < k && 0 <= c.col < Side
    ensures s <= RowsBelow(k)
  {
    RowsBelowExactly(k);
  }

  /** A set of board cells that misses one board cell has fewer than 49 elements. */
  lemma FewerThanAllCells(s: set<Cell>, missing: Cell)
    requires forall c :: c in s ==> OnBoard(c)
    requires OnBoard(missing) && missing !in s
    ensures |s| < Side * Side
  {
    var rows: nat := Side;
    var t := s + {missing};
    assert |t| == |s| + 1;
    WithinRows(t, rows);
    RowsBelowExactly(rows);
    SubsetNoLarger(t, RowsBelow(rows));
  }
}
