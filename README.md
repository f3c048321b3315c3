# Snake game core, modelled in Dafny

This project models the game logic of a pygame snake game ("Изгиб Питона",
`the_snake.py`). The field is 640×480 pixels, cut into 20-pixel cells.

The snake is a head-first list of cell corners in pixels. It also holds a
target length, a current direction and a pending direction that may be absent.
Each frame runs the same steps in order:

1. handle the key events: the last direction key becomes the pending direction, and a quit event ends the program;
2. latch the pending direction, unless it points straight back;
3. step one cell, wrapping across the screen edges;
4. drop the tail when the list is longer than the target length;
5. if the head reached the apple, add one to the target length and move the apple;
6. if the head landed on another segment, reset the snake and move the apple.

Modules:

- `Field` (field.dfy) holds the constants, cells, directions, the literal
  `if`/`elif` edge wrap and grid cells.
- `Snakes` (snake.dfy) holds the snake state as a value (`SnakeState`) and the
  functions that specify each operation (`Latched`, `Moved`, `Initial`). It
  also holds the class `Snake`, whose methods update its fields in place.
  Each method's contract ties `Model()` to the matching function of `old(Model())`.
- `Apples` (apple.dfy) holds the class `Apple`.
- `Input` (input.dfy) turns a frame's key events into the pending direction.
- `Game` (game.dfy) holds the frame as a function on a `World` value
  (`Ticked`), the `Tick` method on the two objects, and runs of frames
  (`Run`). It also holds the lemmas about eating, growth and collision.
- `Wrappers` (option.dfy) holds `Option`.

The random source is replaced by arguments. A random cell is given as a grid
column and row (`0 <= gx < 32`, `0 <= gy < 24`), the range `randint` draws
from. A frame can move the apple twice, once on eating and once on reset, so
`Rolls` carries one cell for each.

## Model

| member | source | states |
|---|---|---|
| Field.Delta | the_snake.py:33-36 | each direction is a unit vector along one axis: UP and DOWN move only in y, LEFT and RIGHT only in x, and DOWN and RIGHT point to growing coordinates |
| Field.ReversalIsOpposite | the_snake.py:165-171 | the literal test `(new_dx, new_dy) == (-cur_dx, -cur_dy)` holds exactly when the request is the opposite direction |
| Field.WrapAxis | the_snake.py:193-201 | a wrapped coordinate always lies in `[0, extent)`, and a coordinate already inside is left alone |
| Field.NextHead | the_snake.py:186-203 | the new head always lies inside the 640×480 screen, and it is the plain one-cell step whenever that step stays inside |
| Field.NextHeadIsModular | the_snake.py:186-203 | from a grid-aligned head on the screen, the `if`/`elif` wrap equals `(x + dx*20) mod 640`, `(y + dy*20) mod 480`, and the new head is grid-aligned on the screen |
| Field.CellAt | the_snake.py:103-107 | the cell for column gx and row gy is grid-aligned, inside the screen, and gives back gx and gy |
| Field.CellAtCoversGrid | the_snake.py:103-107 | every grid-aligned cell on the screen is the cell of some in-range column and row, so every cell can be drawn |
| Snakes.Initial | the_snake.py:141-151 | the start state is length 1, the single segment (320, 240), heading right, no pending direction |
| Snakes.InitialInvariant | the_snake.py:148-149 | the start state has between 1 and `length` segments, all on the grid |
| Snakes.Latched | the_snake.py:157-174 | the request is always cleared; it becomes the direction unless it is absent or the opposite direction, in which case the direction is unchanged; segments and length are untouched |
| Snakes.Moved | the_snake.py:176-210 | the first segment is the wrapped next head and the rest is a prefix of the old list; the list grows by one exactly when the old count plus one does not exceed `length`, and otherwise keeps its count; length and both directions are untouched |
| Snakes.MovedInvariant | the_snake.py:205-210 | a step keeps 1 <= segments <= length with every segment on the grid; a full list keeps its count and a short one grows by one |
| Snakes.GrownInvariant | the_snake.py:326 | adding one to the target length keeps the invariant |
| Snakes.Snake.constructor | the_snake.py:141-151 | a new snake is in the start state and satisfies the invariant |
| Snakes.Snake.HeadPosition | the_snake.py:153-155 | returns the first segment |
| Snakes.Snake.UpdateDirection | the_snake.py:157-174 | the new state is `Latched` of the old state |
| Snakes.Snake.Move | the_snake.py:176-210 | the new state is `Moved` of the old state. The method applies the literal `if`/`elif` wrap and then prepends the head and pops the tail. It keeps the invariant |
| Snakes.Snake.Reset | the_snake.py:254-262 | the snake returns to the same state the constructor builds |
| Apples.Apple.constructor | the_snake.py:98-101 | a new apple is placed on the drawn grid cell |
| Apples.Apple.RandomizePosition | the_snake.py:103-107 | the apple moves to the drawn column and row, which is a grid-aligned cell on the screen; nothing excludes the snake's cells |
| Input.KeyDirection | the_snake.py:277-284 | the arrow keys and W/S/A/D map to UP, DOWN, LEFT and RIGHT, exactly; every other key requests nothing |
| Input.BeforeQuit | the_snake.py:271-274 | the handled events are the longest prefix of the batch that contains no quit event |
| Input.BeforeQuitIsPrefix | the_snake.py:271-274 | any quit-free prefix that ends at a quit event or at the end of the batch is that handled prefix |
| Input.LastKeyWins | the_snake.py:276-284 | the last direction key of a batch decides the pending direction |
| Input.NoKeyKeepsPending | the_snake.py:276-284 | a batch without direction keys leaves the pending direction as it was |
| Input.HandleKeys | the_snake.py:265-284 | reports quit exactly when the batch holds a quit event; the pending direction becomes that of the last direction key before the quit, and no other field changes |
| Game.Ticked | the_snake.py:319-333 | a frame always leaves the snake with at least one segment |
| Game.TickedInvariant | the_snake.py:319-333 | a frame keeps the snake invariant and keeps the apple on the grid |
| Game.TickEats | the_snake.py:325-327 | when the head reaches the apple without colliding, the snake is the latched and moved snake with its length grown by exactly one, and the apple moves to the drawn cell |
| Game.TickMisses | the_snake.py:325-327 | when the head neither eats nor collides, the length and the apple stay and the snake is just latched and moved |
| Game.TickCollides | the_snake.py:329-333 | when the head lands on another segment, the frame ends in the start state with the apple on the reset cell, whatever the length and even if the apple was just eaten |
| Game.FedSnakeKeepsTail | the_snake.py:325-327 | after a meal the next frame's step keeps the tail, whatever keys that frame handles: the list grows by one and the old segments follow the new head |
| Game.Handled | the_snake.py:316 | handling a frame's keys changes only the requested direction, so the world's invariant survives |
| Game.Run | the_snake.py:314-333 | the game loop over finite frames (keys, then the frame, stopping at a quit) ends in a valid world from any valid world |
| Game.Meals | the_snake.py:325-327 | counts the frames of a run, up to a quit, whose head reaches the apple; the count used by `Game.RunLengthCountsMeals` |
| Game.RunLengthCountsMeals | the_snake.py:324-333 | without a self-collision, the length at the end of a run is the starting length plus the number of frames that ate, whatever frames and turns come between meals |
| Game.RunTurnsOnKey | the_snake.py:316-322 | a key pressed in a later frame of a run turns the snake: after one frame right, the up arrow moves the head one cell up |
| Game.RunFrame | the_snake.py:314-333 | one pass of the loop: reports quit exactly when the events hold one; the new world is the handled world, and unless it quits, that world after `Ticked` |
| Game.Tick | the_snake.py:319-333 | running the five steps on the two objects gives exactly `Ticked` of the old world, and keeps the invariants |
| Game.AppleMayLandOnBody | the_snake.py:105-107 | there is a valid frame where the apple is eaten and the new apple lands on the snake's body |
| Game.LeftEdgeWraps | the_snake.py:193-194 | moving left from x = 0 puts the head at x = 620 on the same row |
| Game.ThreeSegmentsEat | the_snake.py:205-210 | a three-segment snake that eats gets target 4, and the next frame keeps all four segments |
| Game.TurnIntoBodyResets | the_snake.py:329-333 | a five-segment snake turning into its own body ends the frame in the start state with the apple on the reset cell |

## Left out

- Drawing is not modelled: `GameObject.draw`, `Apple.draw`, `Snake.draw`, grid lines and surfaces only call pygame.
- Window setup, `pygame.init`, the clock and `clock.tick(SPEED)` are not modelled: they are I/O and timing.
- Event polling is not modelled. A frame's events arrive as a sequence argument of `Input.HandleKeys`.
- A quit event is modelled as `HandleKeys` returning `quit = true` and handling no further events. `pygame.quit()` and `SystemExit` are not modelled.
- `randint` is not modelled: each random column and row is an argument in the range `randint` draws from.
- The unbounded `while True` loop is modelled as finite runs of frames (`Game.Run`). Each frame carries its key events and its apple cells, and a quit event ends the run.
- The `body_color` field of `GameObject` is left out for the snake and the apple: colours matter only to drawing.
- The snake's own `position` field is left out. The constructor reads it once, to build the one-element `positions` list, and nothing reads it afterwards. The model builds that list from the start cell directly.
- The pending direction is modelled as one of four directions or none. In the source it is any tuple, but only the four direction constants are ever stored in it.
- The list of segments is modelled as a sequence field that the methods reassign. The in-place `insert(0, …)` and `pop()` have the same effect, because no other object holds the list.
- `Snakes.Snake.Move` requires a non-empty list: the source reads `positions[0]`, which fails on an empty list.
- The wrap is modelled as the source writes it, with `if`/`elif` and not modulo. It is proved to match modulo for grid-aligned heads on the screen (`Field.NextHeadIsModular`).
- The apple is placed on any grid cell, including the snake's body. This follows the code, which never draws again; there is no "free cell" guarantee.
