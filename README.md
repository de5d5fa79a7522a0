# Wall-E board game: a Dafny model of the game engine

This project models the game engine of a small board-game server. A game has a
rectangular board of W columns and H rows (3 ≤ W, H ≤ 50). Every cell holds a
robot, the princess, a flower, debris, or nothing. The robot starts in the
top-left corner and the princess sits in the bottom-right corner. The player
steers the robot to pick up the single flower and drop it on the princess.
Clearing debris and moving are the other two actions. Any physically invalid
action (stepping off the board, bumping into debris, cleaning a cell without
debris, and so on) loses the game. An action called on a finished game, or with
the wrong carry state, does nothing and reports failure.

The model follows the source's structure:

- `Types` (types.dfy): the three enumerations, which the source declares side
  by side, and the one-letter code of each cell kind. The source's French names map as follows. `CaseType` is `Cell`:
  ROBOT/PRINCESSE/FLEUR/DECHET/VIDE are Robot/Princess/Flower/Debris/Empty.
  `GameStatus` is `Status`: EN_COURS/PERDU/GAGNE are InProgress/Lost/Won.
  `Direction`: HAUT/BAS/GAUCHE/DROITE are Up/Down/Left/Right.
- `Grid` (grid.dfy): positions (`Position`, main.py:32-35, as the value type `Pos`), the direction-to-offset table, the action
  target, the bounds check (`InBounds`, the source's `_is_valid_position`), and
  the board as a sequence of rows. `Write` is the in-place `board[y][x] = v` of
  the source. `Count(b, c)` counts the cells holding `c`, and its lemmas say how
  one write changes every count.
- `Rendering` (rendering.dfy): `get_board_string` as a pure function, with
  lemmas that pin down every character of the text.
- `Engine` (engine.dfy): the `Game` class. Its fields are those the source
  updates in place: `status`, `carriesFlower`, `board` and `robotPos`. The
  width and height are constants. `Valid()` is the invariant every action keeps:
  - the robot's recorded position holds the one robot cell;
  - there is at most one flower and at most one princess;
  - while the game is in progress, the robot carries the flower exactly when
    no cell holds it.

  Each action's postcondition has one case per branch of the source:
  - a no-op when the game is over or the carry state is wrong;
  - a loss when the target is off the board;
  - success or a loss depending on what the target cell holds.

  Every case states the complete new state, so "nothing else changes" is part
  of each contract. The no-op case is `unchanged(this)`, which makes Lost and
  Won terminal.

Two quirks of the source are kept as written and stated in the contracts.
Moving onto the princess overwrites her cell with the robot, so
`MoveRobot` ensures the princess count drops to zero then. No action ever adds a
princess back, so every action ensures the princess count never grows. A win
needs a princess cell on the board beforehand (a `DropFlower` postcondition), so
after such a move the game can no longer be won. Dropping the flower onto the
princess wins the game and leaves the board as it was.

The rendering is a function of the board alone, so two calls with no action in
between give the same text.

## Model

| member | source | states |
|---|---|---|
| Types.Code | main.py:11-16 | each cell kind renders as its one-letter value, and no letter is the row separator |
| Types.CodeInjective | main.py:11-16 | different cell kinds have different letters |
| Grid.Offset | main.py:87-95 | Up and Down change only the row, Left and Right only the column; each changes it by exactly one; Down and Right add one, Up and Left subtract one |
| Grid.Target | main.py:111-113 | the cell an action aims at is a horizontal or vertical neighbour of the robot's cell, so never the robot's cell itself |
| Grid.TargetIsBijective | main.py:87-95 | each of the four neighbours of a cell is the target of exactly one direction |
| Grid.InBoundsIsOnBoard | main.py:97-99 | on a W×H board, `InBounds` (0 ≤ x < W and 0 ≤ y < H) accepts exactly the positions that name a cell, so every access it guards is within the board |
| Grid.Write | main.py:146 | writing a cell gives it the new content, keeps every other cell and keeps the board's shape |
| Grid.Blank | main.py:44 | the initial board has H rows of W cells, all empty |
| Grid.CountWrite | main.py:75-76 | one write lowers the count of the kind the cell held by one and raises the count of the kind written by one |
| Grid.CountPositive | main.py:165-168 | a kind has a nonzero count exactly when some cell holds it, so a zero count means no cell holds it |
| Grid.OnlyOne | main.py:101-104 | a kind counted at most once, such as the robot or the flower, is held by at most one cell |
| Grid.CountBlank | main.py:44 | the initial board holds W·H empty cells and no other kind |
| Rendering.Render | main.py:79-85 | the rows' letters joined by newlines with none after the last row: the text holds a newline exactly when there are at least two rows |
| Rendering.RenderLength | main.py:79-85 | a board of H rows of W cells renders to H·(W+1)−1 characters |
| Rendering.RenderAt | main.py:79-85 | character y·(W+1)+x is the letter of the cell in row y, column x; character y·(W+1)+W is a newline for every row but the last |
| Rendering.RenderHead | main.py:82-85 | the rendering opens with the first row's letters, followed by a newline when more rows come |
| Rendering.RenderTail | main.py:82-85 | after the first row and its newline, the rendering continues with the rendering of the remaining rows |
| Rendering.RenderNewlines | main.py:85 | a rendering of H ≥ 1 rows holds exactly H − 1 newlines |
| Rendering.RenderInjective | main.py:79-85 | two boards of the same shape with the same text are equal |
| Rendering.RenderCount | main.py:79-85 | the text shows each kind's letter exactly as many times as the board holds that kind |
| Engine.DebrisCount | main.py:70 | the debris count is 30% of W·H rounded down, and it leaves room for the robot, the princess and the flower |
| Engine.Game.constructor | main.py:38-48 | a new game is in progress, carries no flower, has the generated layout and satisfies the invariant |
| Engine.Game.GenerateBoard | main.py:50-67 | robot at (0,0) with its position recorded, princess at (W−1,H−1), one flower on neither corner; then the debris step |
| Engine.Game.ScatterDebris | main.py:69-77 | exactly DebrisCount(W,H) debris cells are placed; every cell that was not empty keeps its content (so robot, princess and flower stay where they were), and every cell that changed now holds debris and was empty before; every other cell is empty |
| Engine.Game.UpdateRobotOnBoard | main.py:101-104 | the old robot cell becomes empty and the new one holds the robot |
| Engine.Game.MoveRobot | main.py:106-130 | no-op on a finished game; off the board: lost; onto empty or princess: moves, old cell empty, new cell robot; otherwise lost; keeps the invariant; never adds a princess and removes her when stepping on her |
| Engine.Game.CleanDebris | main.py:132-150 | no-op on a finished game or while carrying; off the board: lost; onto debris: the cell becomes empty; otherwise lost; keeps the invariant |
| Engine.Game.PickUpFlower | main.py:152-172 | no-op on a finished game or while carrying; off the board: lost; onto the flower: the cell becomes empty, the robot carries it and no flower is left on the board; otherwise lost; keeps the invariant |
| Engine.Game.DropFlower | main.py:174-202 | no-op on a finished game or while not carrying; off the board: lost; onto the princess: won, not carrying, board unchanged; onto empty: the cell holds the flower and the robot no longer carries it; otherwise lost; keeps the invariant; a win needs a princess on the board |

## Left out

- The web layer is not part of this model: the FastAPI application, its routes, the request and response models and the process-wide `games` registry (main.py:1-8, 205-353). The same goes for the server entry point.
- The `3 ≤ W, H ≤ 50` validation belongs to the request model (main.py:209-211). Here it is the constructor's precondition.
- The game identifier from `uuid.uuid4()` (main.py:39) is an opaque foreign value with no behaviour to state.
- `princess_pos` and `flower_pos` (main.py:46-47, 57, 65, 168, 197) are never read by any action, so they are not modelled. Line 47 assigns the typing object `Optional[Position]`, not a position.
- Engine.Game.GenerateBoard: the random draws of `random.randint` are modelled as arbitrary choices among the cells a draw is accepted for. The flower goes on any cell but the two corners, and each debris cell on any still-empty cell. Rejected draws change nothing and are not modelled. So the model covers every layout the generator can produce, but not their probabilities. It also does not model the (probability-zero) run in which the retry loop never ends.
- Engine.Game.ScatterDebris: the debris loop of `_generate_board` is a separate method here, called at its end. This only shortens the proof; the effect on the game is the same.
- Engine.DebrisCount: the source computes `int(W*H*0.3)` in floating point; the model uses the integer `W*H*3/10`. They agree for every W·H = n ≤ 2500. The double nearest 0.3 lies below 0.3 by about 1.1e-17. When 10 divides n, 3n/10 is an integer and the rounded product n·fl(0.3) comes back to exactly that integer, since the shortfall, about 3.7e-17 times the value, is below half the spacing of doubles around the value, which is at least 5.5e-17 times the value. For any other n, 3n/10 has a fractional part of at least 0.1, far above any rounding error, so truncation gives the same integer.
- The board is a sequence of rows that each action reassigns, not a list of lists updated in place. The source never shares rows between boards or games, so no aliasing is lost.
- The string values of the `Direction` and `GameStatus` enumerations are only used by the web layer, so they are not modelled. The cell letters are modelled, in `Code`.
- The princess cell does not last the whole game: the code overwrites it when the robot steps onto it, and no restoring step exists. The model keeps this: `Valid()` asks for at most one princess, and `MoveRobot` states the overwrite.
