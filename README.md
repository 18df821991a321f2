# Snake game logic in Dafny

A model of the game logic of a toroidal-grid Snake game (`src/lib.rs`),
separated from the graphics, audio and window library it is written on.

- **Direction** (`Directions`): the four movement directions and the
  opposite-direction test that blocks a 180 degree turn.
- **Geometry** (`Geometry`): integer positions and rectangles; the
  rectangle intersection used for every collision, as overlap of positive
  area.
- **Wrap-around step** (`Torus`): the arithmetic that moves the head one
  entity size and wraps it around the window edges, with the `%` of the
  source's floating-point coordinates (truncated, sign of the dividend)
  written out as `TruncRem`.
- **Rules** (`Rules`): the snake and the game as values, and one function
  per operation (`Advanced`, `Grown`, `ResetSnake`, `WithInput`,
  `RandomPosition`, `Relocate`, `Updated`), with the lemmas that state what
  each guarantees, and the game invariant `Inv` that every update and every
  key press preserves: snake and food on cells of the window, score equal
  to 10 per segment beyond the head, and no pending reversal on a snake
  longer than one segment.
- **Snake** (`Snakes.Snake`): the snake object, whose segment queue is a
  `seq<Pos>` field that `Grow`, `Reset` and `Advance` reassign (push back,
  pop back in a loop, pop back and push front), and whose collision scan is
  a loop with early return. Each method is proved to follow its `Rules`
  function.
- **Game** (`Game.SnakeGame`): the game object holding the snake, the food,
  the score and the window size, with the input handler, the reset, the
  score setter, and the update with its rejection
  sampling loop for the food (`FreePosition`). The digit count of the
  score (`DigitCount`) is modelled on its own; the text offset it feeds is
  left out.

Positions are integers: the window is cut down to a multiple of the entity
size, random positions are snapped to multiples of it, and every move is
one entity size, so every coordinate the game produces is a whole multiple
of the entity size. The random generator is a parameter: `draws` is the
sequence of raw values `gen_range` returns, in order.

Behaviour the proofs bring out: the food is placed at start-up without
being checked against the snake. If it lands under the head and no key is
pressed, the first update eats it in place and grows a segment onto the
head's cell; the idle second update recycles that segment onto the same
cell, finds a self-collision and resets the score to 0
(`Rules.IdleStartOnFoodResets`).

This code has no pause or game-over state: a self-collision resets the
snake and the score at once (`src/lib.rs:469-471`). The play area is the
whole window with origin 0, so the wrap uses the window extent with no
origin offset (`src/lib.rs:277-286`).

## Model

| member | source | states |
|---|---|---|
| Directions.NotOppositeToNone | src/lib.rs:110-122 | no direction is opposite to an absent direction |
| Directions.OppositeIffReversedStep | src/lib.rs:110-122 | d is opposite to e exactly when e's unit step is the reverse of d's |
| Directions.OppositeSymmetric | src/lib.rs:110-122 | Left/Right and Up/Down: the relation is symmetric |
| Directions.NotOppositeToItself | src/lib.rs:110-122 | no direction is its own opposite |
| Directions.OppositeUnique | src/lib.rs:110-122 | each direction has exactly one opposite |
| Directions.IsOppositeTo | src/lib.rs:110-122 | true only if the other direction is present and is the cardinal opposite; its lemmas above state the properties |
| Geometry.IntersectsIffSharedCell | src/lib.rs:236-237 | two integer rectangles intersect exactly when some unit cell lies in both |
| Geometry.IntersectsSymmetric | src/lib.rs:474 | the intersection test does not depend on argument order |
| Geometry.SquaresIntersect | src/lib.rs:236-237 | equal squares intersect iff their corners are less than a side apart on both axes |
| Geometry.GridSquaresIntersectIffEqual | src/lib.rs:236-237 | equal squares on the grid intersect iff they are on the same cell |
| Geometry.Intersects | src/lib.rs:237 | the rectangle intersection reports an overlap iff the intersection has positive width and height |
| Torus.TruncRem | src/lib.rs:277-286 | the `%` of the step: remainder below the modulus in magnitude, sign of the dividend, dividend minus remainder divisible by the modulus |
| Torus.NextHeadIsWrappedOffset | src/lib.rs:275-287 | from a head in the window, the new head is the head plus one size along the direction, reduced modulo the window extent on each axis |
| Torus.NextHeadOnGrid | src/lib.rs:275-289 | in a window of whole cells, a head on a cell moves to a cell in the window (and without a direction keeps the tail's cell) |
| Torus.StepBackOnGrid | src/lib.rs:276-281 | a step left or up from a cell goes to the previous cell, or from cell 0 to the last cell |
| Torus.StepForwardOnGrid | src/lib.rs:282-287 | a step right or down goes to the next cell, or from the last cell to cell 0 |
| Torus.UnsetDirectionKeepsTail | src/lib.rs:288 | without a direction the recycled tail keeps its own position |
| Torus.NextHead | src/lib.rs:275-289 | the recycled tail's new position: the head moved one size along the direction with the truncated `%` wrap, or the tail's position without a direction |
| Rules.CollisionPastEnd | src/lib.rs:232-243 | skipping all segments finds no collision |
| Rules.SingleSegmentNeverSelfCollides | src/lib.rs:224-228 | a one-segment snake never collides with itself |
| Rules.CollisionOnGridIffOccupied | src/lib.rs:232-243 | on the grid, a square collides with the segments from n on iff one of them is on its cell |
| Rules.AdvanceShiftsSegments | src/lib.rs:262-292 | a step keeps the length, commits the pending direction, shifts segments [0, n-1) to [1, n) and puts the stepped head in front |
| Rules.IdleSingleSegmentStays | src/lib.rs:269-291 | with no pending direction a one-segment snake does not move |
| Rules.AdvanceStaysOnGrid | src/lib.rs:262-292 | a snake on cells of the window stays on cells of the window after a step |
| Rules.GrowAppendsAtHead | src/lib.rs:246-250 | growing adds one segment at the back, on the head's position, and changes nothing else |
| Rules.GrowThenAdvanceKeepsBody | src/lib.rs:246-291 | after growing and stepping, the snake is its whole old body behind the new head |
| Rules.ResetKeepsHead | src/lib.rs:253-259 | reset leaves exactly the original head, unmoved, and clears both directions |
| Rules.ResetIdempotent | src/lib.rs:253-259 | resetting twice equals resetting once |
| Rules.OtherKeyIgnored | src/lib.rs:383-399 | a key other than W, A, S, D changes nothing |
| Rules.InputSetsPendingDirection | src/lib.rs:382-401 | a direction key sets the pending direction exactly when the snake has one segment or the key does not reverse the current direction; segments and current direction never change |
| Rules.RandomPosition | src/lib.rs:372-379 | a draw snaps to the nearest lower multiple of the entity size on each axis |
| Rules.RandomPositionInWindow | src/lib.rs:372-379 | a draw in a window of whole cells snaps to a cell inside the window |
| Rules.Relocate | src/lib.rs:479-488 | rejection sampling yields the first snapped draw whose square collides with no segment |
| Rules.SkipBlockedDraw | src/lib.rs:484-488 | a rejected draw is skipped and sampling continues with the rest |
| Rules.InitialStateInv | src/lib.rs:350-355 | the starting game satisfies the game invariant |
| Rules.UpdateOnSelfCollision | src/lib.rs:464-471 | on self-collision after the step, the snake is cut to its head with cleared directions and the score is 0 |
| Rules.UpdateOnEat | src/lib.rs:474-494 | on eating, length grows by 1, score by 10, and the food moves to a cell of the window no segment occupies |
| Rules.UpdateOtherwise | src/lib.rs:464-497 | otherwise an update is just the step |
| Rules.UpdatePreservesInv | src/lib.rs:464-497 | every update preserves the game invariant |
| Rules.InputPreservesInv | src/lib.rs:382-401 | every key press preserves the game invariant; in particular no reversal is armed on a longer snake |
| Rules.IdleStartOnFoodResets | src/lib.rs:350-355 | with the food under the starting head and no key pressed, the first update scores 10 and the second resets the snake and the score |
| Rules.CollidesFrom | src/lib.rs:232-243 | some segment from index n on carries a probe of the area's size that the area overlaps |
| Rules.SelfCollides | src/lib.rs:224-228 | the head's square collides with the segments from index 1 |
| Rules.Advanced | src/lib.rs:262-292 | the snake after one step: committed direction, tail recycled as the new head |
| Rules.Grown | src/lib.rs:246-250 | the snake with one more segment pushed at the back on the head's position |
| Rules.ResetSnake | src/lib.rs:253-259 | the snake cut to its head with both directions cleared |
| Rules.KeyDirection | src/lib.rs:383-391 | A, W, D, S map to Left, Up, Right, Down; every other key to no direction |
| Rules.WithInput | src/lib.rs:392-400 | the snake with the key's direction armed unless it reverses a longer snake |
| Rules.Updated | src/lib.rs:464-497 | one update: advance, then reset on self-collision, else grow, relocate the food and add 10 on eating |
| Snakes.Snake.HeadPosition | src/lib.rs:199-203 | the position of the front segment |
| Snakes.Snake.Area | src/lib.rs:211-214 | the head's square of the snake's segment size |
| Snakes.Snake.constructor | src/lib.rs:191-197 | a new snake has one segment at the given position and no directions |
| Snakes.Snake.Collision | src/lib.rs:232-243 | the scan reports a collision exactly when the area overlaps a probe at some segment from index n on |
| Snakes.Snake.SelfCollision | src/lib.rs:224-228 | self-collision is the collision of the head's area from index 1 |
| Snakes.Snake.Grow | src/lib.rs:246-250 | the snake afterwards is the grown snake |
| Snakes.Snake.Reset | src/lib.rs:253-259 | the pop-back loop leaves the reset snake |
| Snakes.Snake.Advance | src/lib.rs:262-292 | pop back, reposition and push front leave the advanced snake |
| Game.TruncateWindow | src/lib.rs:323-326 | the window used is a positive multiple of the entity size, within one entity size below the requested size |
| Game.DigitCount | src/lib.rs:413-420 | the loop returns the number of decimal digits: the least count with n below 10 to that power |
| Game.SnakeGame.constructor | src/lib.rs:322-368 | a new game has the truncated window, a one-segment snake and food at snapped draws, score 0, and satisfies the invariant |
| Game.SnakeGame.HandleInput | src/lib.rs:382-401 | the game afterwards is the input applied to the snake, and the invariant holds |
| Game.SnakeGame.SetScore | src/lib.rs:411-421 | the score becomes the given value |
| Game.SnakeGame.ResetState | src/lib.rs:404-408 | the snake is reset and the score is 0 |
| Game.SnakeGame.FreePosition | src/lib.rs:479-488 | the rejection loop returns the first snapped draw clear of the snake |
| Game.SnakeGame.Update | src/lib.rs:464-497 | the game afterwards is the updated game, and the invariant holds |

## Left out

- Rendering: drawing entities, the snake and the score text, and the text position and string (`src/lib.rs:171-178`, `295-304`, `423-425`, `500-508`); only the digit count that feeds the text offset is modelled. The two offsets are `u32` subtractions (`window_size.x - config.text_size` at `src/lib.rs:342`, `self.window.size().x - offset` at `src/lib.rs:424`) that underflow and panic in a debug build when the window is narrower than the text (a requested width of 40-79 gives a 40-pixel window, and 40 - 55 underflows); that panic is not represented, and the constructor accepts such widths.
- The window, the event loop and the fixed-time-step accumulator (`run`, `process_events`), which depend on the wall clock and operating-system events; `update`'s elapsed-time argument is unused by the source and is dropped.
- Loading the font and sounds and playing the eat and game-over sounds (foreign I/O and audio).
- `Config::new` and `src/main.rs` (argument parsing and process exit); the entity size, which the configuration fixes at 40, is a parameter.
- The random generator: its outputs are the `draws` parameter, assumed inside the window as `gen_range` promises.
- Game.SnakeGame.Update: requires a free position among the draws whenever the snake eats; when the snake fills every cell the source loops forever, which the model does not represent.
- Game.SnakeGame.constructor: requires a window at least one entity size wide and high; below that the truncated size is 0 and `gen_range(0, 0)` panics.
- Single-precision floats: coordinates are integers, which is exact for the whole multiples of the entity size the game produces while they stay below 2^24.
- Rectangles of negative size, which the library's intersection normalises; every rectangle here has positive size.
- Segment identity: the source recycles the tail entity as the new head; the model keeps positions only, which is all that differs between segments (size and colour are shared).
- The score is an unbounded natural number: the 32-bit overflow of `score + 10` would take more than 429 million foods.
- The window is assumed to keep the size it was created with (it is created without a resize button).
