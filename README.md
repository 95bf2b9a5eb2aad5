# Quoridor rule engine

A model of the rule engine of a 7×7 Quoridor game for an embedded board. It
covers the token moves, the wall cursor, the trap check and the wall commit.
All game state lives in globals. The central one is a 13×13 integer board.
Each playable cell (r, c) sits at packed position (2r, 2c), and every
position with an odd coordinate is a wall slot. A position holds 0 when free,
1 or 2 for a player's token, and 3 or 4 for a wall segment of player 1 or 2.

The model has four modules:

- `Board` holds the packed board as a value (`Grid`), the wall cells and
  cursor bounds, and the effect of writing a wall (`PutWall`) or turning
  one (`Rotate`).
- `Rules` holds the move decision the engine reads off the board
  (`Resolve`), what it does to the possible-move and face-to-face flags, and
  the overlap scan of a candidate wall (`Collisions`).
- `Reach` defines walks between cells that no wall separates and
  `Escapes`, the property the trap check decides. It also proves that a
  closed region without a goal cell traps.
- `Engine` holds the class `Quoridor`, whose fields are the globals of the
  engine. The board is an `array2<int>` with a ghost value `grid` kept
  equal to it. Each operation of the engine is a method over these fields.
  Each method is proved against the value-level functions above.

The breadth-first trap search keeps its own `visited` and `queue` arrays,
as the engine does. Its loop carries a ghost `Trail`: the queued cells in
order, together with an open walk from the start to each of them. The
search is proved to report exactly whether the player can reach the goal
row. The proof also shows that the queue never holds more than the 49 cells
of the board, well inside its 196 entries.

The engine's behaviour is modelled as written, including the following:

- A trap check that finds a way out leaves the candidate wall on the board,
  written with the checked player's code.
- A trap check that finds no way out erases the wall by writing 0. This
  also erases any wall already in those slots.
- A wall commit runs the trap check for player 1 and then for player 2, each
  on the board the one before left. When only player 1 is trapped, the board
  therefore keeps the candidate wall with code 4.
- The face-to-face flags are only ever set. The single reset is after
  player 1 moves down. The possible-move flags are only ever cleared.
- A token moves 4 positions whenever the face-to-face flag of its
  direction is set after the scan, even when that flag is left over from
  an earlier scan and the board holds no jump (see Findings).
- The player id that the wall moves and the wall commit take is not used.

## Model

| member | source | states |
|---|---|---|
| Board.WallCell | c_functions.c:606-635 | The i-th position a wall covers is `[2y+1][2x+2+i]` (horizontal) or `[2y+2+i][2x+1]` (vertical); for a wall within the cursor bounds it lies inside the 13×13 board |
| Board.PutWallAt | c_functions.c:753-768 | Writing a wall sets exactly its three positions and leaves every other position as it was; the three positions are wall slots, never token cells |
| Engine.Quoridor.PlaceWallCells | c_functions.c:753-768 | Writing a wall position by position, as the loops of the trap check, the revert and the commit do, in the current orientation gives the board with exactly the wall's three positions set to the value, every other position unchanged, and keeps the array in step with its value |
| Board.PutCellsWall | c_functions.c:753-757 | Writing the three positions one after the other, as the loop does, gives the same board as writing the wall |
| Board.PutWallOverride | c_functions.c:803-807 | Writing a wall over the same wall leaves only the second value, so a revert to 0 undoes the temporary wall |
| Board.Rotate | c_functions.c:988-998 | A quarter turn flips the orientation, keeps a wall within the cursor bounds, and keeps its middle position fixed |
| Board.RotateTwice | c_functions.c:988-998 | Two quarter turns restore the wall |
| Board.Nudge | c_functions.c:849-852 | A cursor step keeps the orientation and moves every covered position by two packed positions in the step's direction |
| Rules.ResolveDown | c_functions.c:254-273 | The move decision downward reads exactly the packed positions the down scan reads: blocked off the board or behind a wall, a jump when the opponent is adjacent with free slots before and behind it |
| Rules.ResolveLeft | c_functions.c:274-293 | As for down, for the left scan |
| Rules.ResolveRight | c_functions.c:294-313 | As for down, for the right scan |
| Rules.ResolveUp | c_functions.c:314-333 | As for down, for the up scan |
| Rules.ScanFlags | c_functions.c:252-335 | With both tokens on the board, after a scan from the mover's cell a direction stays possible exactly when it was possible, the step to the neighbour is open and, when the neighbour is the opponent, the step beyond is open too; it is face to face exactly when it was, or the neighbour is the opponent and both steps are open |
| Rules.ResolveOpen | c_functions.c:252-335 | With both tokens on the board, a move is not blocked exactly when the step to the neighbour is open and, when the neighbour is the opponent, the step beyond is open; it is a jump exactly when the neighbour is the opponent and both steps are open |
| Rules.ResolveBySteps | c_functions.c:254-333 | The move decision read off packed positions agrees with its statement by open steps: blocked unless the step to the neighbour is open, an advance onto a free neighbour, a jump over an occupied neighbour when the step beyond is open, blocked otherwise |
| Rules.DecideBySteps | c_functions.c:254-273 | For any neighbour and the cell beyond it, the slots the scan reads between packed positions are exactly the open steps between the cells |
| Rules.ResolveSteps | c_functions.c:254-273 | A move that is not blocked crosses a free slot to the neighbour; it is a jump exactly when the neighbour holds a token, and the jump crosses a second free slot |
| Rules.MoveLandsFree | c_functions.c:382-433 | A move that is not blocked lands on a free board cell, never on either token; it is a jump exactly when the opponent is the neighbour, and then lands just beyond the opponent |
| Rules.StartingBoard | c_functions.c:371-372 | The starting board holds token 1 at cell (0, 3), token 2 at cell (6, 3) and no wall |
| Rules.StepKeepsTokens | c_functions.c:392-405 | Clearing a token's cell and writing its id into a free cell keeps exactly the two tokens on the board and the wall slots unchanged |
| Rules.WallWriteKeepsTokens | c_functions.c:1019-1036 | Writing or erasing a wall keeps both tokens in place and every wall slot holding 0, 3 or 4 |
| Rules.ScanListsTaken | c_functions.c:597-637 | The overlap scan lists exactly the taken positions of the wall, each once and in scan order, with owner 3 when the position holds 3 and 4 otherwise; the list is empty exactly when all three positions are free |
| Rules.ScanSound | c_functions.c:611-631 | Every entry of the scan is a taken position of the wall, with owner code 3 exactly when the position holds 3 and 4 otherwise |
| Rules.ScanOrdered | c_functions.c:606-635 | The entries of the scan follow the order in which the wall's positions are read |
| Rules.ScanComplete | c_functions.c:606-635 | Every taken position of the wall has an entry in the scan |
| Rules.ScanEmpty | c_functions.c:597-637 | The scan is empty exactly when none of the wall's positions is taken |
| Rules.OverlapIffTaken | c_functions.c:597-637 | A wall overlaps exactly when one of its three positions is taken |
| Reach.WalkExtend | c_functions.c:790-796 | A walk extended by a step through a free slot is a walk |
| Reach.ClosedRegionTraps | c_functions.c:801-809 | A region that contains the start, is closed under open steps and has no cell in the goal row proves that the player is trapped |
| Reach.EscapesDependsOnFreeSlots | c_functions.c:699-728 | Whether a player can escape depends only on which slots are free, which is all the wall test reads |
| Reach.WallOwnerIrrelevant | c_functions.c:753-768 | The candidate wall blocks the same walks whether written with code 3 or 4 |
| Reach.FewerThanAllCells | c_functions.c:667-668 | A set of board cells that misses one cell has fewer than 49 cells, which bounds the queue |
| Engine.LandsOnTarget | c_functions.c:389-404 | For a move that is not blocked the coarse edge bound holds, and the step of 2 or 4 packed positions lands on the packed position of the target cell |
| Engine.AwayWhenOpen | c_functions.c:389 | A move that is not blocked never fails the coarse edge bound the token move checks |
| Engine.LandingInside | c_functions.c:389-404 | A move that is not blocked lands on even packed coordinates inside the board array: on the target cell when the face-to-face flag is clear or the move is a jump, and 4 positions on when a stale flag asks for it and the array holds that position |
| Engine.AgreeingFlagKeepsPlay | c_functions.c:392-405 | A step by a face-to-face flag that agrees with the move decision lands inside the board on the target cell and keeps the match invariant |
| Engine.StaleFlagOverwrites | c_functions.c:442-461 | With player 1 at packed (4, 6), player 2 at packed (4, 2) and the left face-to-face flag left set, the move to the left is an ordinary advance on the board, yet the token steps 4 positions onto player 2, no cell holds token 2 any more and the match invariant is broken |
| Engine.StepKeepsPlaying | c_functions.c:392-405 | Moving a token to a free cell keeps the match invariant: both positions even, exactly the two tokens on the board, wall codes in the slots |
| Engine.MoveKeepsPlay | c_functions.c:382-433 | A token move that is not blocked lands inside the board on its target cell and keeps the match invariant |
| Engine.StartPlaying | c_functions.c:354-372 | The board and positions set at the start of a match satisfy the match invariant |
| Engine.WallKeepsPlaying | c_functions.c:1019-1036 | Writing or erasing a wall keeps the match invariant |
| Engine.WallCode | c_functions.c:744-768 | The code written for the candidate wall is 3 for player 1 and 4 for any other id |
| Engine.GoalRow | c_functions.c:759-769 | The goal row is 6 for player 1 and 0 for any other id, a row of the board |
| Engine.OpenIsNeighbor | c_functions.c:666 | Every cell one open step away is one of the four neighbours in the neighbour table |
| Engine.ExtendExplored | c_functions.c:790-797 | Queuing an unvisited cell one open step from a queued cell keeps every queued cell distinct and reachable from the start, and keeps the queue within 49 cells |
| Engine.CoveredAll | c_functions.c:784-798 | After the four neighbours of a popped cell are visited, every cell one open step away from it is queued |
| Engine.StartTrail | c_functions.c:744-749 | The search starts with the player's cell alone, reached by the one-cell walk, with nothing expanded yet |
| Engine.TrailEscapes | c_functions.c:780-781 | A popped cell in the goal row shows that the player can escape |
| Engine.TrailTraps | c_functions.c:801-809 | A queue exhausted without reaching the goal row shows that the player is trapped |
| Engine.StepFitsInBounds | c_functions.c:842 | For a wall within bounds with one orientation flag set, the bound a cursor move checks holds exactly when the moved wall is still within the cursor bounds |
| Engine.Quoridor.constructor | c_functions.c:9-16 | Before a match the board is empty, every flag and counter is 0, the four possible-move flags are 1, and the overlap record, the visited marks and the queue are all 0 |
| Engine.Quoridor.SetCell | c_functions.c:392-405 | Writes one board position, keeping the array and its value in step; the value changes at that position only |
| Engine.Quoridor.InitializeBoard | c_functions.c:54-59 | Every position of the board becomes 0 |
| Engine.Quoridor.PossibleMoves | c_functions.c:252-335 | The scan from a cell narrows the possible-move flags and widens the face-to-face flags by the move decision, and writes nothing else |
| Engine.Quoridor.ScanDown | c_functions.c:254-273 | The down scan of the array gives the move decision of the board value |
| Engine.Quoridor.ScanLeft | c_functions.c:274-293 | The left scan of the array gives the move decision of the board value |
| Engine.Quoridor.ScanRight | c_functions.c:294-313 | The right scan of the array gives the move decision of the board value |
| Engine.Quoridor.ScanUp | c_functions.c:314-333 | The up scan of the array gives the move decision of the board value |
| Engine.Quoridor.StartGame | c_functions.c:344-373 | Starts the match with player 1 to move, tokens at packed (0, 6) and (12, 6), the cursor horizontal at (2, 2) within bounds, the flags scanned from player 1's cell on the board as it was, and both tokens written; from an empty board the match invariant holds |
| Engine.Quoridor.SetStart | c_functions.c:346-364 | Sets the match flags, the token positions and the cursor to their starting values |
| Engine.Quoridor.PlaceTokens | c_functions.c:371-372 | Writes 1 at packed (0, 6) and 2 at packed (12, 6), keeping the board array and its value equal |
| Engine.Quoridor.Relocate | c_functions.c:392-405 | Clears the old position, then writes the id at the new one; nothing else on the board changes |
| Engine.Quoridor.StepPlayer1 | c_functions.c:389-412 | When the token is clear of the edge, it steps 2 packed positions, or 4 when the face-to-face flag of the direction is set, its old position is cleared and 1 written at the new one, the turn ends and a move down clears the down flag; otherwise nothing changes. When the flag agrees with a move that is not blocked, the token lands on the target cell and the match invariant is kept |
| Engine.Quoridor.MovePlayer1 | c_functions.c:385-412 | A move of player 1 rescans both flag records from its cell, steps by the face-to-face flag as it stands after the scan, writes 1 at the landing position and clears the old one, keeps player 2 in place and ends the turn; when no stale flag asks for a jump, the token lands on the target cell and the match invariant is kept |
| Engine.Quoridor.StepPlayer2 | c_functions.c:416-431 | As for player 1, writing 2, with no flag cleared |
| Engine.Quoridor.MovePlayer2 | c_functions.c:414-431 | As for player 1, writing 2 and keeping player 1 in place |
| Engine.Quoridor.MoveDownToken | c_functions.c:382-433 | Moves player 1 when the id is 1 and player 2 otherwise, down, with the effect above |
| Engine.Quoridor.MoveLeftToken | c_functions.c:442-481 | As for down, to the left |
| Engine.Quoridor.MoveRightToken | c_functions.c:490-529 | As for down, to the right |
| Engine.Quoridor.MoveUpToken | c_functions.c:538-577 | As for down, upward |
| Engine.Quoridor.ClearOverlap | c_functions.c:599-604 | Every overlap coordinate and owner code becomes 0 |
| Engine.Quoridor.Record | c_functions.c:611-621 | Stores one more taken position and its owner code after those already recorded |
| Engine.Quoridor.IsOverlappedWall | c_functions.c:597-637 | Returns true exactly when a position of the wall is taken, records the taken positions with their owner codes in scan order and zeros after them, and only reads the board |
| Engine.Quoridor.ShiftCursor | c_functions.c:849-865 | Moves the cursor by the step, keeps it within bounds, and sets both overlap flags and the record for the new position |
| Engine.Quoridor.MoveWall | c_functions.c:837-868 | When the stepped wall stays within bounds the cursor moves there and the overlap state describes it; otherwise only the out-of-board flag is set; the board is untouched |
| Engine.Quoridor.MoveDownWall | c_functions.c:837-868 | The cursor step downward, with the effect above |
| Engine.Quoridor.MoveLeftWall | c_functions.c:877-903 | The cursor step to the left, with the effect above |
| Engine.Quoridor.MoveRightWall | c_functions.c:912-938 | The cursor step to the right, with the effect above |
| Engine.Quoridor.MoveUpWall | c_functions.c:947-973 | The cursor step upward, with the effect above |
| Engine.Quoridor.RotateWall | c_functions.c:980-1013 | The cursor turns a quarter turn about its middle position, stays within bounds, and the overlap flags and record describe the new position |
| Engine.Quoridor.ResetMatrix | c_functions.c:676-687 | Every visited mark and every queue entry becomes 0 |
| Engine.Quoridor.NoWallBetween | c_functions.c:699-728 | For adjacent board cells, returns true exactly when the slot between them is free, which is exactly when one open step joins them |
| Engine.Quoridor.Enqueue | c_functions.c:746-749 | The queue holds the start cell alone and it is the only visited cell |
| Engine.Quoridor.Push | c_functions.c:793-796 | Appends an unvisited cell to the queue and marks it visited; the visited marks stay exactly the queued cells |
| Engine.Quoridor.Visit | c_functions.c:786-797 | Visiting a neighbour keeps the queued cells distinct and reachable, and queues the neighbour when one open step reaches it |
| Engine.Quoridor.Expand | c_functions.c:784-798 | After the four neighbours of a popped cell are visited, every cell one open step away from it is queued |
| Engine.Quoridor.Pop | c_functions.c:775-798 | Pops the next cell; a cell in the goal row shows an escape, otherwise the expanded prefix of the queue grows by one |
| Engine.Quoridor.Search | c_functions.c:772-799 | The search loop terminates and reports true exactly when the player's cell has an open walk to the goal row |
| Engine.Quoridor.IsTrappola | c_functions.c:739-810 | Returns true exactly when the board with the candidate wall written in the player's code has no open walk from the player to the goal row; the board afterwards differs from before only at the wall's three positions, which hold 0 when trapped and the player's code otherwise |
| Engine.Quoridor.CheckTraps | c_functions.c:1017-1018 | Both trap verdicts are as above for the board before the commit; the board ends with the wall erased when player 2 is trapped and holding code 4 otherwise |
| Engine.Quoridor.CommitWall | c_functions.c:1019-1036 | When neither player is trapped, writes the wall with the code of the player whose turn has started and ends that turn; otherwise writes nothing; the match invariant holds afterwards whenever it held on the board before the trap checks |
| Engine.Quoridor.PositionWall | c_functions.c:1015-1037 | Both trap verdicts describe the board before the commit; when neither traps, the wall is written with 3 or 4 for the started turn and that turn ends; otherwise no turn ends and the board holds only what the trap checks left; the match invariant is kept whenever it held before, and nothing beyond the cursor invariant and both stored positions naming board cells is required |

## Left out

- Drawing on the display is not modelled: the LCD lines, squares, walls, the
  info layout, the timer, `redraw_walls` and `color_spaces13x13`. The `color`
  parameter of `possible_moves` is dropped with it.
- `draw_player` is not modelled. It computes with floating point and only draws.
- `wall_mode` and `mossa` belong to code outside this file. They are plain
  fields that `start_game` resets to 0.
- The turn flags driven by the timer and touch interrupts are plain fields.
  The `volatile` qualifier and concurrency are not modelled.
- The integer flags of the engine are booleans here, since they only ever
  hold 0 or 1.
- Engine.Quoridor.MoveDownToken: the token moves check only a coarse edge
  bound, and their caller, which is not part of this model, consults the
  possible-move flags. The precondition `MoveAllowed` stands for that
  check: the move is not blocked on the current board. A face-to-face flag
  left set by an earlier scan still makes the token step 4 positions; the
  model follows that step, and only requires the board array to hold the
  landing position, since the model has no out-of-range writes. This
  applies equally to MoveLeftToken, MoveRightToken, MoveUpToken,
  MovePlayer1, MovePlayer2, StepPlayer1 and StepPlayer2.
- Engine.Quoridor.PositionWall: the wall operations require the cursor
  invariant. Both orientation flags must be consistent and the wall must be
  within the cursor bounds. The starting position establishes this, and the
  cursor moves and rotation preserve it. The engine itself assumes it
  rather than checking it. The trap checks and the commit also require both
  stored token positions to name board cells, which every token move keeps;
  they do not require the board to hold both tokens.
- Engine.Quoridor.MoveWall: the engine calls `is_overlapped_wall` on the
  stepped position and then updates the cursor. The model updates the
  cursor first and then runs the same scan on the same position. This gives
  the same result, since the scan reads the position only from its
  arguments and the orientation.
- Wall counts, the end of the match and diagonal jumps do not appear in
  this engine and are not modelled.

## Findings

| source | as written | input that shows it | evidently intended | confidence | as-written member | corrected member |
|---|---|---|---|---|---|---|
| c_functions.c:442-461 | The token steps 4 positions whenever the face-to-face flag of the direction is set, and the flag is never reset except after player 1 moves down, so a flag from an earlier scan asks for a jump the current board does not allow | Player 1 at packed (4, 6), player 2 at packed (4, 2), `f2f_left` left set by an earlier scan, then `move_left_token(1)`: the cell between them is free, yet player 1 lands on (4, 2) and writes 1 over token 2 | The step follows the jump decision of the scan just made, so the token lands on the target cell and both tokens stay on the board | not executed | Engine.StaleFlagOverwrites | Engine.AgreeingFlagKeepsPlay |
