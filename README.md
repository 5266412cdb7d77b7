# Nokia Snake with gesture control: the two state machines

This project models the two parts of the gesture-controlled snake game that hold its logic, and proves properties about them.

- **The snake game's tick state machine** (`snake_game.py`). The game is a class `Snake.SnakeGame` with the fields of the Python `SnakeGame`:
  - the body as a sequence of cells, head first;
  - the current and pending direction;
  - the fruit, the score and the game-over flag;
  - the particle list and the frame rate.
  Its methods change those fields as `reset_game`, `spawn_fruit`, `create_particles`, `update_particles`, `handle_input`, `update` and `run_frame` do. A tick is also described as a value function, `Snake.Tick`, on a `Board`. A `Board` holds the body, fruit, score, game-over flag and particles; a tick also adopts the pending direction, which `Update` states on its own. `Update` and `RunFrame` are proved against `Tick`. Each other method is proved against its own partner:
  - `HandleInput` against the steering function `Steer`;
  - `CreateParticles` against `Burst`;
  - `UpdateParticles` against `Decayed`;
  - `ResetGame` and `SpawnFruit` by their own postconditions on the new state.
  The invariants are proved on `Tick` itself:
  - the body stays inside the field and has no cell twice;
  - the body has one segment per 10 points plus the head;
  - the fruit is on a free cell;
  - every particle is alive.
- **The wrist-motion classifier** (`gesture_controller.py`). `GestureControl.Classify` is the dominant-axis swipe rule over the wrist's motion between two frames. `GestureControl.DetectPinch` is the thumb/index pinch test. The class `GestureControl.GestureController` holds the stored wrist position and the displayed direction. `ProcessHands` is the hand loop of `process_frame`, and it is proved against the function `ScanHands`. Coordinates are Dafny `real`s. The classifier only subtracts and compares them, and the pinch test compares a squared distance with 0.05², which is the same as comparing the distance with 0.05.

Files:
- `optional.dfy`: Python's `None` as `Option`.
- `compass.dfy`: the four directions and their reversal.
- `grid.dfy`: cells, stepping, and the pigeonhole lemma that lets the fruit always find a free cell.
- `particles.dfy`: the particle `life` counter.
- `gesture_controller.dfy`: the classifier.
- `snake_game.dfy`: the game.

Two behaviours of the code that are easy to miss:
- **Restart.** In `run_frame` (`snake_game.py:247-252`), `reset_game` is followed by `update` in the same frame, because `game_over` is then false. So the new snake has already moved one cell right from the centre when the frame ends. It may even have eaten a fruit that was placed on that cell, or, on a field two cells wide or narrower, hit the wall at once. `Snake.SnakeGame.RunFrame` states this behaviour.
- **Gesture during game over.** `update` (`snake_game.py:114-118`) returns before adopting the pending direction while the game is over. `handle_input` still steers the pending direction, checking against the direction the snake had when it died.

## Model

| member | source | states |
|---|---|---|
| `Compass.Opposite` | snake_game.py:99-106 | The reversal that steering rejects is the other direction on the same axis: UP/DOWN, LEFT/RIGHT. |
| `Grid.Step` | snake_game.py:122-131 | The new head keeps the coordinate across the direction's axis and moves one cell along it: RIGHT and DOWN increase the coordinate (rows grow downward), LEFT and UP decrease it. |
| `Grid.CellsCount` | snake_game.py:17-18 | A field of `grid_width` by `grid_height` cells has exactly `grid_width * grid_height` cells. |
| `Grid.FreeCellExists` | snake_game.py:60-68 | The retry loop that places the fruit can succeed: a duplicate-free in-field body shorter than the number of cells leaves some in-field cell off the body. |
| `Particles.Burst` | snake_game.py:70-79 | One eaten fruit releases exactly 10 particles, each with life 20. |
| `Particles.Decayed` | snake_game.py:81-88 | After an update of the particles, every particle left is alive (life > 0), and there are no more than before. |
| `Particles.DecayedAppend` | snake_game.py:83-88 | The particle update handles each particle on its own: updating `a + b` gives the update of `a` followed by the update of `b`, in order. |
| `Particles.DecayedAllSurvive` | snake_game.py:86-88 | Particles with life above 1 all survive, in order, each with life one lower. |
| `Particles.DecayedNoneSurvive` | snake_game.py:86-88 | Particles with life at most 1 are all removed. |
| `Particles.DecayedBelow` | snake_game.py:86 | The update lowers every surviving life below any bound the lives had before. |
| `Particles.BurstLifetime` | snake_game.py:72-88 | A burst keeps all 10 particles with life `20 - n` through `n < 20` updates and is gone after the 20th. |
| `GestureControl.Classify` | gesture_controller.py:51-64 | With no stored position there is no swipe. Otherwise a swipe fires exactly when the wrist travelled more than 0.05 in some direction. The swipe is a direction of greatest travel, and a tie between the axes goes to the vertical one. |
| `GestureControl.DetectPinch` | gesture_controller.py:33-43 | A pinch requires thumb tip and index tip to be less than 0.05 apart on each axis. |
| `GestureControl.PinchIsCloseness` | gesture_controller.py:38-43 | The pinch test holds exactly when the Euclidean thumb/index distance is below 0.05. |
| `GestureControl.PinchReadsTipsOnly` | gesture_controller.py:35-36 | The pinch depends only on landmarks 4 and 8. |
| `GestureControl.ScanHands` | gesture_controller.py:85-112 | With no hand in the frame: no gesture, no boost, and the stored position and displayed direction are untouched. Otherwise: the stored position is the last hand's wrist, the boost is the last hand's pinch, and the gesture is the swipe from the wrist before. The displayed direction changes only to a gesture that fired. |
| `GestureControl.DriftFiresNothing` | gesture_controller.py:51-66 | Wrist positions that never move more than 0.05 per axis between observations fire no gesture and leave the displayed direction alone. The stored position follows the last wrist. |
| `GestureControl.GestureController.constructor` | gesture_controller.py:24-26 | A new classifier has no stored wrist position and no displayed direction. |
| `GestureControl.GestureController.DetectGestures` | gesture_controller.py:45-67 | Returns `Classify` of the stored position and the current wrist, then stores the current wrist whatever the result. |
| `GestureControl.GestureController.ProcessHands` | gesture_controller.py:99-112 | The hand loop leaves the classifier in the state, and reports the gesture and boost, that `ScanHands` gives. |
| `Snake.Steer` | snake_game.py:98-106 | A gesture sets the pending direction unless it reverses the current direction (compared with `direction`, not the pending one). A reversal or no gesture keeps the pending direction. |
| `Snake.SteerNeverReverses` | snake_game.py:98-106 | Steering never makes the reversal of the current direction pending unless it already was. |
| `Snake.Tick` | snake_game.py:113-159 | A finished game stays exactly as it is. A tick that ends the game only raises the flag. The body grows by one segment and the score by 10 exactly when the fruit is eaten; otherwise neither changes. |
| `Snake.TickOutcome` | snake_game.py:113-159 | A tick ends the game exactly when the stepped head leaves the field or lands on the body, the tail included, and then changes nothing else. Otherwise the head is the stepped cell and the rest is the old body, minus its tail unless the fruit is eaten. Eating adds one segment and 10 points and a burst of particles, and moves the fruit. Every particle ages once. |
| `Snake.TickPreservesWellFormed` | snake_game.py:113-159 | A tick keeps the body in the field and free of repeats, keeps its length at score/10 + 1, keeps the fruit off the body and keeps the particles alive, given that a respawned fruit lands on a free cell. |
| `Snake.SnakeGame.constructor` | snake_game.py:10-39 | The field is `width // 20` by `height // 20` cells. The game starts reset, at base speed 8. |
| `Snake.SnakeGame.ResetGame` | snake_game.py:41-58 | The snake is the centre cell alone, both directions are RIGHT, the score is 0, the game is running, there are no particles, and the fruit is on a free cell. |
| `Snake.SnakeGame.SpawnFruit` | snake_game.py:60-68 | Returns an in-field cell off the body and changes nothing. |
| `Snake.SnakeGame.CreateParticles` | snake_game.py:70-79 | Appends exactly one burst of 10 particles with life 20. |
| `Snake.SnakeGame.UpdateParticles` | snake_game.py:81-88 | Walking a copy while removing from the working list leaves the list equal to `Decayed` of the old list. |
| `Snake.SnakeGame.HandleInput` | snake_game.py:97-109 | The pending direction becomes `Steer` of the gesture. The frame rate becomes 15 with boost and 8 without. |
| `Snake.SnakeGame.Update` | snake_game.py:113-159 | Does nothing once the game is over. Otherwise it adopts the pending direction and changes the board as `Tick` says, keeping the invariant. |
| `Snake.SnakeGame.RunFrame` | snake_game.py:242-252 | A running game steers and then ticks. A game over stays exactly as it was, apart from steering and speed, unless the gesture is UP. UP restarts and ticks once to the RIGHT in the same frame. |

## Left out

- Rendering and the window: `draw`, the pygame display, fonts, colours, `clock.tick` and `quit`. These are foreign library calls with no logic to state.
- The ESC key and the window-close event. The boolean that `handle_input` and `run_frame` return only reports them, so the model's `HandleInput` and `RunFrame` return nothing.
- Camera capture, frame flipping, colour conversion, MediaPipe hand and face inference, the overlay text and `release` in `gesture_controller.py`. A failed camera read returns before any classifier state is touched. `ProcessHands` takes the tracker's list of hands as its input.
- The particles' floating-point position and velocity, and the random velocities. They are cosmetic, so a particle is modelled by its integer `life` alone.
- `main.py`: the capture thread and the game thread sharing the last gesture and the boost flag. This is concurrency and console output.
- `setup.py`: a package-installer subprocess.
- Snake.SnakeGame.constructor: it requires a window of at least 20 by 20 pixels and a field of at least two cells. In a narrower or lower window the field has no column or no row (`snake_game.py:17-18`), so `spawn_fruit` calls `random.randint(0, -1)`, which raises `ValueError` (`snake_game.py:64`). On a 1 by 1 field the snake fills the only cell and `spawn_fruit` never returns (`snake_game.py:60-68`). `main.py` creates the game with the default 400 by 400 window (`main.py:12`, `snake_game.py:10`).
- Snake.SnakeGame.SpawnFruit: the fruit is any free cell chosen nondeterministically. The model does not state that the choice is uniform, because the Python game's random draws are not modelled.
- Snake.SnakeGame.Update: when the eaten fruit leaves no free cell, the Python game's placement loop never returns. The precondition `FruitCanRespawn` excludes exactly that move, and so does `RunFrame`'s precondition.
- Snake.SnakeGame.UpdateParticles: Python's `list.remove` removes the first particle equal to the one visited. Any equal particle earlier in the list has already been visited and either removed or left with a positive life, so the one removed is always the visited particle. The model removes that position directly. It works on a local copy of the list and stores it in the field when the walk ends, not after each removal. Nothing else runs during the walk, so no other code can see the difference.
