# Flappy Bird game loop, modelled in Dafny

This project models the simulation inside `game.py`, a small pygame "Flappy Bird". The bird
has a fixed horizontal position. Gravity pulls it down and the space key makes it flap
upward. Pipes enter at the right border of the screen in pairs with a gap between them,
move left by a fixed speed each frame, and are dropped once they have left the screen.

The model has five modules, one per part of the program:

- `Constants` (`constants.dfy`) holds the module-level constants of `game.py`: screen 800 × 600,
  pipe width 50, gap 200, pipe speed 5, gravity 0.5, flap strength 10. It also holds the two
  literals of the loop: a spawn every 100 frames and a 100-pixel gap margin.
- `BirdModel` (`bird.dfy`) has the bird as a class whose `Flap` and `Update` change its fields.
  The value `BirdState` and the functions `Flapped`, `Updated` and `Fall` specify them.
  Lemmas give the closed form of free fall and the rise time after a flap.
- `PipeModel` (`pipe.dfy`) has the pipe as a class whose `Move` changes `x`. The value
  `PipeState` specifies it. The two rectangles computed in `Pipe.draw` are lifted into the
  pure function `Rects`, whose contract states how they tile the pipe's column.
- `PipeStream` (`stream.dfy`) specifies one frame's effect on the list of pipe values. It spawns
  (`Spawned`), moves (`MovedAll`) and prunes (`Prune`), composed as `StepPipes`. It also states
  the invariant the list keeps from frame to frame (`StreamInvariant`): each gap is legal,
  each pipe is on screen, consecutive pipes are exactly 500 pixels apart, and the newest pipe
  is where the frame count puts it. From that invariant follow spawn order and "at most two
  pipes alive".
- `GameLoop` (`game.dfy`) holds the variables of `main` as the class `Game`: the bird, the list
  of pipe objects and `frameCount`. `Step` is one iteration of the `while True` loop without
  the drawing, and `Run` runs the loop for a finite sequence of inputs. `MovePipes` is the
  `for pipe in pipes: pipe.move()` loop over the objects. `KeepOnScreen` is the list
  comprehension that drops references to pipes that are off screen.

The list keeps the pipes in the order they were appended. Older pipes are further left, so
the x values grow strictly along the list and the oldest pipe comes first.

Numbers: Python integers are unbounded, and so are Dafny's `int` and `nat`. The bird's
position and velocity are Dafny `real`s. With gravity 0.5 and flap strength 10 every value
is a multiple of 0.5. A double holds every multiple of 0.5 up to 2^52 in magnitude, so real
arithmetic gives exactly what the program computes while |y| and |velocity| stay below 2^52.
Nothing in `game.py` stops the bird, so a bird that never flaps reaches that bound after
about 1.3·10⁸ frames of free fall (y ≈ 300 + n²/4). From then on the program's floats
round and the model does not follow them.

## Model

| member | source | states |
|---|---|---|
| `BirdModel.Bird.constructor` | game.py:99-102 | a new bird is at the given x and y with velocity 0 |
| `BirdModel.Bird.Flap` | game.py:104-105 | the velocity becomes -FLAP_STRENGTH whatever it was; x and y do not change |
| `BirdModel.Bird.Update` | game.py:107-109 | first the velocity grows by GRAVITY, then y grows by the new velocity; x does not change |
| `BirdModel.FlapForgetsVelocity` | game.py:104-105 | two birds at the same place are in the same state after a flap, whatever their velocities; a second flap changes nothing |
| `BirdModel.FallClosedForm` | game.py:107-109 | after n updates without a flap the velocity is v + n·g and y is y + n·v + g·n(n+1)/2; x is unchanged |
| `BirdModel.StartTrace` | game.py:140 | the bird of a new game, left alone for five frames, is at y = 307.5 with velocity 2.5 |
| `BirdModel.FlapRiseTime` | game.py:104-109 | after a flap the velocity is negative for exactly the next 19 updates and zero at the 20th |
| `BirdModel.BirdAfterNoFlaps` | game.py:147-156 | frames without a space press are free fall: the bird after them is `Fall` of the start state by the number of frames |
| `BirdModel.BirdAfterLastFlap` | game.py:147-156 | only the last flap counts: the bird after the frames is the bird as it was at the last flapping frame, flapped, then falling freely for the remaining frames |
| `PipeModel.Pipe.constructor` | game.py:116-118 | a new pipe is at the given x, and its gap position is a legal draw from [100, SCREEN_HEIGHT - PIPE_GAP - 100] |
| `PipeModel.Pipe.Move` | game.py:120-121 | x decreases by exactly PIPE_SPEED and the gap stays the same |
| `PipeModel.Rects` | game.py:123-125 | both rectangles sit at the pipe's x with width PIPE_WIDTH; the upper spans [0, gap_y), the lower spans [gap_y + PIPE_GAP, SCREEN_HEIGHT), so they are exactly PIPE_GAP apart; they never overlap; with a legal gap each is at least 100 high and, within the pipe's column, a pixel is in the upper one iff it is above the gap and in the lower one iff it is below it |
| `PipeStream.Spawned` | game.py:159-162 | the list grows by one exactly when the incremented count is a multiple of 100; the old pipes stay in front; the new last pipe is at SCREEN_WIDTH with the drawn gap |
| `PipeStream.MovedAll` | game.py:165-166 | the list keeps its length and order, and each pipe is the old one moved by one frame |
| `PipeStream.Prune` | game.py:169 | the list comprehension on pipe values; it carries no contract of its own and is specified by `PruneIsFilter`, `PruneKeepsOrder` and `PruneDropsPrefix` |
| `PipeStream.PruneIsFilter` | game.py:169 | every pipe kept has its right edge past 0; each pipe on screen is kept as often as it occurs and each other pipe is removed; the kept pipes form a subsequence of the input |
| `PipeStream.PruneKeepsOrder` | game.py:169 | pruning a list in spawn order (strictly increasing x) gives a list in spawn order |
| `PipeStream.PruneDropsPrefix` | game.py:169 | on a list in spawn order, pruning removes a prefix: exactly the pipes before some index are off screen |
| `PipeStream.StepMovesSurvivors` | game.py:159-169 | every pipe left after a frame is on screen and is a pipe from before the frame, or the pipe it spawned, moved by PIPE_SPEED |
| `PipeStream.StepSpawnsNewest` | game.py:159-166 | after a frame, the newest pipe is the freshly spawned one (x = 795, the drawn gap) iff the incremented count is a multiple of 100 |
| `PipeStream.StepPreservesInvariant` | game.py:158-169 | a frame keeps the stream invariant: legal gaps, all pipes on screen, consecutive pipes 500 apart, none before frame 100, and the newest pipe at 800 - 5·((frameCount mod 100) + 1) |
| `PipeStream.AtMostTwoPipes` | game.py:158-169 | the invariant implies at most two live pipes, strictly increasing x and no x at or beyond SCREEN_WIDTH |
| `PipeStream.StepPipes` | game.py:159-169 | one frame on the pipe values (spawn, move, prune); it carries no contract of its own and is specified by `StepPreservesInvariant`, `StepMovesSurvivors` and `StepSpawnsNewest` |
| `PipeStream.PipesAfterInvariant` | game.py:147-169 | any number of frames with draws from the legal range keeps the stream invariant |
| `PipeStream.PipesAfterAtMostTwo` | game.py:147-169 | however many frames pass from a state that meets the invariant, at most two pipes are alive, in spawn order |
| `GameLoop.MovePipes` | game.py:165-166 | moving each pipe object in turn leaves the list's values equal to every old value moved by one frame |
| `GameLoop.KeepOnScreen` | game.py:169 | the list comprehension on pipe objects keeps only references already in the list; `KeepOnScreenView` shows its values are `Prune` of the values, `KeepOnScreenDistinct` that no object appears twice |
| `GameLoop.KeepOnScreenDistinct` | game.py:169 | filtering a list without repeated objects gives a list without repeated objects |
| `GameLoop.KeepOnScreenView` | game.py:169 | filtering the pipe objects and then reading their values is the same as pruning the values |
| `GameLoop.SpawnPipe` | game.py:160-162 | the object list after the spawn test has the values `Spawned` gives; the added pipe is a new object |
| `GameLoop.AdvanceStream` | game.py:159-169 | counting, spawning, moving and pruning the objects returns count + 1 and a list of distinct pipes whose values are `StepPipes` of the old values |
| `GameLoop.Game.constructor` | game.py:140-145 | the game starts with the bird at (100, 300) at rest, no pipes and frame count 0, and satisfies the invariant |
| `GameLoop.Game.Step` | game.py:147-169 | one frame flaps if asked, updates the bird, counts the frame and applies `StepPipes` to the pipes; the invariant is kept |
| `GameLoop.Game.AdvancePipes` | game.py:158-169 | the pipe half of a frame: count + 1, the pipes become `StepPipes` of the old pipes, and the invariant is kept |
| `GameLoop.Game.Run` | game.py:147-179 | after the frames the bird is `BirdAfter` of its old state and the flags, the pipes are `PipesAfter` of the old pipes and the draws, the count has grown by the number of frames, the invariant still holds and at most two pipes are alive |

## Left out

- Everything pygame does is left out as presentation and I/O: initialisation, the window and
  caption, the event queue, `QUIT` and `sys.exit`, drawing the circle and rectangles, the
  background image and its `blit`, `display.flip` and `clock.tick(60)`.
- `random.randint` is not modelled. The drawn gap position is a parameter of `Game.Step` and of
  the `Pipe` constructor. A `requires` limits it to the range the call draws from, both ends
  included.
- Key presses become one boolean per frame. Several space presses in one frame flap several
  times, and `FlapForgetsVelocity` shows that leaves the same state as one flap.
- Floating point is not modelled. The bird uses exact `real`s, and nothing is claimed about
  IEEE rounding. `int(self.y)` and `BIRD_SIZE // 2` are used only for drawing and are not
  modelled.
- `Bird.x` and `Pipe.gap_y` are Dafny `const` fields, because no code in `game.py` assigns them
  after construction.
- `GameLoop.Game.Run` models a finite prefix of the endless `while True` loop, with one input
  per frame.
- The commented-out first draft at the top of `game.py` (lines 1-72) is not modelled. It is an
  earlier copy of the same bird without pipes.
- `game.py` has no code for velocity damping, collision detection, scoring, moving gaps, an
  intro, mode or game-over screen, or a check that the bird is out of bounds, so the model
  has none of them either. In particular, a bird that falls off the screen keeps falling.
