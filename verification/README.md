# Snake: a verified model of the game core

This project models the logic of a single-player Snake game written in
Python with pygame (`snake/main.py`). A snake moves on an `n_rows x n_rows`
grid whose outer ring is a border. It is steered with the arrow keys, grows by
one node when its head reaches the snack, and loses when its head leaves the
interior `[1, n_rows-2]²` or lands on its own body. It wins when its length
reaches `(n_rows-2)²`.

The model has four modules:

- `Grid` (`grid.dfy`): cells as integer pairs with value semantics. The
  source's `Node.pos` getter and setter copy the coordinate array, so a cell
  is a plain value. The four unit headings `DIR_UP`, `DIR_DOWN`, `DIR_LEFT`
  and `DIR_RIGHT` are constants.
- `SnakeModel` (`snake.dfy`): the snake's body as a sequence of cells, head
  first, plus its heading and the cell its tail last vacated. Pure functions
  specify moving (`Advanced`), the overlap test (`Overlaps`) and steering
  (`Steered`, `KeyHeading`, `SteerAll`). The class `Snake` performs
  `move_one_step`, `grow`, `set_direction_if_not_reverse` and `key_response`
  in place. Each of these methods except `Grow` is proved against the
  matching function; `Grow` is proved to append the vacated cell to the old
  body.
  `MoveOneStep` keeps the source's reverse index loop, which copies each node
  from its predecessor starting at the tail.
- `Board` (`board.dfy`): the playable interior, `is_head_outside`, and the
  rejection sampling of `add_random_snack`. The random draws come in as a
  sequence supplied by the caller. The module also holds a counting argument:
  a snake of `(n_rows-2)²` distinct interior cells covers every interior cell.
- `Game` (`game.dfy`): one pass of `main_loop`. `Step` is the specification
  function on snapshots (`World`). `GameHandler.Tick` carries out the pass on
  the objects and is proved equal to `Step`. The pass applies the tick's key
  presses in order, moves, grows and respawns the snack when the head is on
  it, and then checks for a loss before checking for a win. The lemmas prove
  a game invariant: the snake is inside the border and distinct, and the
  snack is inside and off the snake. A tick that keeps playing preserves it.
  From the invariant no tick ever reports a win (see Findings).

Inputs from the outside are parameters. Key presses are a sequence of `Key`
values (`Left`, `Right`, `Up`, `Down`, `Other`) for each tick. The values of
`np.random.randint(1, n_rows - 1, 2)` are a sequence of candidate cells. Each
candidate lies in the interior, which is what `randint` guarantees, so the
model requires it.

Three facts of the code and how the model treats them:

- `previous_freed_pos` starts as `None` (an `Option`). `Snake.Grow` requires
  that a move came first, as it always does in `main_loop`.
- The placement cap never fires in the code, because the try counter is
  never incremented (see Findings). The game model counts every draw, so in
  the model the cap does fire after 10^6 rejected draws.
- When no draw within the cap is free, the model ends the game with status
  `PlacementFailed`. As written, the source never returns from
  `add_random_snack` in that case: it keeps drawing.

## Model

| member | source | states |
|---|---|---|
| `SnakeModel.Matches` | snake/main.py:42-44 | the length of the node list filtered by "same cell as p" is at most the list's length, and it is zero exactly when no node is on p |
| `SnakeModel.Overlaps` | snake/main.py:42-44 | check_overlap is true iff some node at index 1 or later is on the head's cell; a one-node snake never overlaps |
| `SnakeModel.Advanced` | snake/main.py:30-37 | after a move the length is unchanged, node i (i >= 1) holds old node i-1's cell, and the head is the old head plus the heading |
| `SnakeModel.AdvanceThenGrow` | snake/main.py:30-40 | a move followed by growth at the vacated tail cell gives the new head followed by the entire old body |
| `SnakeModel.Steered` | snake/main.py:46-48 | the new heading is the old one or the requested one; any request that is not the exact reverse is taken; for a non-zero heading the result is never the reverse of the old heading |
| `SnakeModel.ArrowDirection` | snake/main.py:51-58 | each arrow key requests one of the four unit directions |
| `SnakeModel.KeyHeading` | snake/main.py:50-58 | a non-arrow key leaves the heading unchanged; an arrow key whose direction is not the reverse of the heading sets the heading to that direction, and one that is the reverse leaves it unchanged; from a unit heading the result is a unit heading that is not the reverse of the old one |
| `SnakeModel.SteerAll` | snake/main.py:150-155 | the key presses of one tick, applied in arrival order, keep the heading a unit vector; the result is the old heading or the direction of some arrow key pressed; when the last key is an arrow the result is its direction or its reverse, and it is the reverse exactly when that arrow asked to reverse the heading left by the earlier keys, so a reversing press is refused; presses of non-arrow keys alone leave the heading unchanged |
| `SnakeModel.TwoKeysCanReverse` | snake/main.py:46-48 | the reverse check uses the current heading only: Up then Left in one tick turns a snake heading right into one heading left |
| `SnakeModel.Snake.constructor` | snake/main.py:11-19 | a new snake is one node at the start cell, heading right, with no vacated cell yet |
| `SnakeModel.Snake.Len` | snake/main.py:21-22 | the length is the number of nodes, at least 1 for a valid snake |
| `SnakeModel.Snake.Head` | snake/main.py:24-25 | the head is the first node's cell |
| `SnakeModel.Snake.MoveOneStep` | snake/main.py:30-37 | the body becomes Advanced(old body, heading), the vacated cell becomes the old tail's cell (the old head for a one-node snake), and the heading is unchanged |
| `SnakeModel.Snake.Grow` | snake/main.py:39-40 | after a move, growth appends exactly one node on the vacated cell and leaves every existing node's cell unchanged |
| `SnakeModel.Snake.SetDirectionIfNotReverse` | snake/main.py:46-48 | the heading is unchanged when the request is the negation of the current heading, and is set to the request otherwise |
| `SnakeModel.Snake.KeyResponse` | snake/main.py:50-58 | an arrow key requests its direction through the no-reverse rule; any other key changes nothing |
| `Board.IsOutside` | snake/main.py:157-159 | the head is outside iff its x or y lies outside [1, n_rows-2] |
| `Board.FirstFree` | snake/main.py:143-147 | the index of the first draw that lies on no node: every earlier draw is on the snake and the chosen one is not |
| `Board.CappedPlacement` | snake/main.py:140-148 | with at most maxTries draws, the placement succeeds iff one of the first maxTries draws is off the snake, and a placed snack is off the snake and among those draws |
| `Board.AddRandomSnackAsWritten` | snake/main.py:140-148 | as written the loop returns the first draw off the snake, and with a positive cap it never gives up, however many draws are rejected |
| `Board.AddRandomSnack` | snake/main.py:140-148 | with the counter incremented, the result is CappedPlacement, and a placed snack lies in the interior and on no node |
| `Board.FullBoardRejectsAll` | snake/main.py:143-147 | when the snake covers every interior cell, every interior draw is rejected |
| `Board.FullBoard` | snake/main.py:178 | a snake of at least (n_rows-2)² distinct interior cells covers every interior cell |
| `Game.Verdict` | snake/main.py:174-180 | the loss (head outside or overlapping) is decided before the win, and a win needs the head inside, no overlap and length at least (n_rows-2)² |
| `Game.Step` | snake/main.py:165-180 | one tick steers by the tick's keys, grows only when the moved head is on the snack (new head plus the whole old body) and then respawns the snack on the first free draw, otherwise shifts (new head plus all but the old tail), and ends in the placement failure or the verdict on the new body |
| `Game.Initial` | snake/main.py:103-104 | on an even board the game starts with a one-node snake in the middle heading right; it starts playing iff one of the first maxTries draws is off the centre cell, and then the snack is the first such draw, off the snake |
| `Game.CentreStart` | snake/main.py:103 | on an even board of side at least 4 the start cell is interior and the board has at least 4 interior cells |
| `Game.InitialInvariant` | snake/main.py:103-104 | a successfully started game satisfies the game invariant |
| `Game.StepKeepsInvariant` | snake/main.py:165-180 | a tick that leaves the game playing preserves the invariant: the snake stays inside and distinct, and the snack stays inside and off the snake |
| `Game.WinUnreachable` | snake/main.py:166-180 | from the invariant no tick reports a win: the growth that fills the board leaves no free cell, so the respawn fails before the win check |
| `Game.BorderScenario` | snake/main.py:174-176 | on a 6 x 6 board, from the centre heading right with no keys, the second tick reaches the border column and loses |
| `Game.GameHandler.constructor` | snake/main.py:85-104 | the new game's snapshot is Initial(n_rows, draws, 10^6) and the snake has no vacated cell yet |
| `Game.GameHandler.UpdateEvents` | snake/main.py:150-155 | the key presses of the tick, handed to key_response in arrival order, leave the snake heading SteerAll(old heading, keys) and change nothing else |
| `Game.GameHandler.Tick` | snake/main.py:161-180 | one pass of the loop changes the snapshot exactly as Step does and records the old tail as the vacated cell |
| `Board.FullBoardDemo` | snake/main.py:140-148 | after a 3-node snake on a 4 x 4 board eats the last free interior cell, with a cap of 2 and 4 rejected draws, the as-written loop is still drawing while the corrected one reports exhaustion |

## Findings

| source | as written | input that shows it | evidently intended | confidence | as-written member | corrected member |
|---|---|---|---|---|---|---|
| snake/main.py:142-148 | `n_tries` is never incremented, so `while n_tries < max_n_tries` never ends by the cap and the `RuntimeError` is unreachable; on a full board the loop draws forever | n_rows = 4, snake [(1,2), (1,1), (2,1)] heading right, snack on (2,2): the snake eats the last free interior cell and grows to cover the interior, and `add_random_snack` (line 170) runs before the win check (line 178), so every draw is rejected | count every draw and raise after `max_n_tries` rejected draws | high; follows from the code, not executed | `Board.AddRandomSnackAsWritten` (with `Board.FullBoardRejectsAll`, `Board.FullBoardDemo`) | `Board.AddRandomSnack` (used by `Game.GameHandler.Tick`; `Game.WinUnreachable` shows the win is still never reported, which the fix of the counter alone does not change) |

## Left out

- Rendering: `Snake.draw`, `Node.draw`, `draw_border`, `draw_grid`, `draw_score`, `redraw_window`, the window and font setup, and all colours. These are drawing with no game logic. The redraw in a tick has no effect on the state and is omitted.
- The clock and the delay (`pygame.time.delay`, `clock.tick`) and event polling. Key presses are a parameter of `Tick`. The `QUIT` event (`pygame.quit()` in `update_events`) is not modelled.
- `np.random.randint`: its values are a caller-supplied sequence of interior cells. The distribution is not modelled.
- The pixel geometry (`node_size`, `np.linspace`). It is floating point and cosmetic.
- The unbounded `while True` of `main_loop` and its `print` calls. `Tick` is a single pass. It requires the status `Playing`, because the loop stops after a terminal outcome.
- `GameHandler.reset`: it repeats the constructor's snake and snack setup.
- `get_nodes`: `Tick` reads the snake's node sequence directly.
- Game.GameHandler.constructor: requires an even `n_rows` of at least 4 and uses `n_rows / 2` as an integer. The source divides with true division. For an odd `n_rows` its start cell has half-integer coordinates, and the snake can then never land on a snack.
- Game.Initial: requires an even `n_rows`, for the same reason as the constructor.
- Game.GameHandler.constructor: the first snack is placed with the counter incremented, so placement stops after 10^6 rejected draws and records `PlacementFailed` with a placeholder snack at (0,0). The source keeps drawing, so draws after the 10^6th are never examined here.
- Game.Initial: the first snack is placed with the counter incremented and stops after 10^6 rejected draws, where the source keeps drawing; draws after the 10^6th are never examined.
- Game.Step: the respawn stops after `maxTries` (10^6 in the game) rejected draws and reports `PlacementFailed`, where the source keeps drawing; draws after that are never examined.
- Game.GameHandler.Tick: the respawn stops after 10^6 rejected draws, where the source keeps drawing, so draws after the 10^6th are never examined.
- SnakeModel.Snake.Grow: requires a previous move. Before the first move the source would append a node whose position is `None`, and it fails later.
- Board.AddRandomSnackAsWritten: a finite draw sequence stands in for an endless random source. The result `Undecided` means the source would go on drawing.
- Aliasing of node positions is not modelled. Positions are values, which is what the copying `pos` property of `Node` provides.
