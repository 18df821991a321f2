/**
 * The game rules on plain values: the snake's state and the game's state,
 * and one function per operation that changes them. The classes of the
 * Snakes and Game modules update their fields in place and are proved to
 * follow these functions; the lemmas here state what the operations
 * guarantee.
 */
module Rules {
  import opened Wrappers
  import opened Geometry
  import opened Directions
  import opened Torus

  /** The segments' positions (head first) and the current and pending directions. */
  datatype SnakeState = SnakeState(segments: seq<Pos>, direction: Option<Direction>, nextDirection: Option<Direction>)

  /** The snake, the food's position and the score. */
  datatype GameState = GameState(snake: SnakeState, food: Pos, score: nat)

  /** The keys the game reacts to (W, A, S, D) and every other key. */
  datatype Key = W | A | S | D | OtherKey

  /** The window is a positive whole number of cells of side `size` on each axis. */
  predicate Board(size: int, width: int, height: int)
  {
    size > 0 && width > 0 && height > 0 && width % size == 0 && height % size == 0
  }

  // ---------------------------------------------------------------------
  // Collisions

  /** A probe with the width and height of `area`, placed at `p`. */
  function ProbeAt(area: Rect, p: Pos): Rect
  {
    Rect(p.x, p.y, area.width, area.height)
  }

  /**
   * `area` overlaps a probe of its own width and height placed at some
   * segment whose index is `nSkip` or more.
   */
  predicate CollidesFrom(segments: seq<Pos>, area: Rect, nSkip: nat)
  {
    exists i :: nSkip <= i < |segments| && Intersects(area, ProbeAt(area, segments[i]))
  }

  /** The head's area overlaps one of the other segments. */
  predicate SelfCollides(s: SnakeState, size: int)
    requires |s.segments| >= 1
  {
    CollidesFrom(s.segments, Square(s.segments[0], size), 1)
  }

  /** Skipping every segment finds no collision. */
  lemma CollisionPastEnd(segments: seq<Pos>, area: Rect, nSkip: nat)
    requires nSkip >= |segments|
    ensures !CollidesFrom(segments, area, nSkip)
  {
  }

  /** A snake of one segment never collides with itself. */
  lemma SingleSegmentNeverSelfCollides(s: SnakeState, size: int)
    requires |s.segments| == 1
    ensures !SelfCollides(s, size)
  {
  }

  /**
   * On the grid, an entity square collides with the segments from `nSkip`
   * on exactly when one of those segments sits on the same cell.
   */
  lemma {:induction false} CollisionOnGridIffOccupied(segments: seq<Pos>, p: Pos, size: int, nSkip: nat)
    requires size > 0 && OnGrid(p, size)
    requires forall i :: 0 <= i < |segments| ==> OnGrid(segments[i], size)
    ensures CollidesFrom(segments, Square(p, size), nSkip) <==>
            exists i :: nSkip <= i < |segments| && segments[i] == p
  {
    forall i | nSkip <= i < |segments|
      ensures Intersects(Square(p, size), ProbeAt(Square(p, size), segments[i])) <==> segments[i] == p
    {
      GridSquaresIntersectIffEqual(p, segments[i], size);
    }
  }

  // ---------------------------------------------------------------------
  // Snake operations

  /**
   * One step: the pending direction becomes the current one, the tail is
   * taken off, given the next head position and put back in front.
   */
  function Advanced(s: SnakeState, size: int, width: int, height: int): SnakeState
    requires |s.segments| >= 1 && width > 0 && height > 0
  {
    var n := |s.segments|;
    var d := s.nextDirection;
    SnakeState([NextHead(s.segments[0], d, size, width, height, s.segments[n - 1])] + s.segments[..n - 1], d, d)
  }

  /** A new last segment at the head's position. */
  function Grown(s: SnakeState): SnakeState
    requires |s.segments| >= 1
  {
    s.(segments := s.segments + [s.segments[0]])
  }

  /** Only the head is kept and both directions are cleared. */
  function ResetSnake(s: SnakeState): SnakeState
    requires |s.segments| >= 1
  {
    SnakeState([s.segments[0]], None, None)
  }

  /** The direction a key asks for, if it is one of W, A, S, D. */
  function KeyDirection(key: Key): Option<Direction>
  {
    match key
    case A => Some(Left)
    case W => Some(Up)
    case D => Some(Right)
    case S => Some(Down)
    case OtherKey => None
  }

  /**
   * A direction key becomes the pending direction unless it reverses the
   * current direction of a snake longer than one segment.
   */
  function WithInput(s: SnakeState, key: Key): SnakeState
  {
    match KeyDirection(key)
    case Some(d) =>
      if |s.segments| == 1 || !IsOppositeTo(d, s.direction) then s.(nextDirection := Some(d)) else s
    case None => s
  }

  /**
   * Advancing keeps the number of segments, commits the pending
   * direction, shifts every segment one place toward the tail (the last one
   * drops out) and puts the stepped head in front.
   */
  lemma AdvanceShiftsSegments(s: SnakeState, size: int, width: int, height: int)
    requires |s.segments| >= 1 && width > 0 && height > 0
    ensures var r := Advanced(s, size, width, height);
      |r.segments| == |s.segments| &&
      r.direction == s.nextDirection && r.nextDirection == s.nextDirection &&
      r.segments[1..] == s.segments[..|s.segments| - 1] &&
      r.segments[0] == NextHead(s.segments[0], s.nextDirection, size, width, height, s.segments[|s.segments| - 1])
  {
  }

  /** With no pending direction a one-segment snake does not move. */
  lemma IdleSingleSegmentStays(s: SnakeState, size: int, width: int, height: int)
    requires |s.segments| == 1 && s.nextDirection == None && width > 0 && height > 0
    ensures Advanced(s, size, width, height).segments == s.segments
  {
  }

  /** Every segment of a snake on the grid of the window stays on it after a step. */
  lemma {:induction false} AdvanceStaysOnGrid(s: SnakeState, size: int, width: int, height: int)
    requires Board(size, width, height) && |s.segments| >= 1
    requires forall i :: 0 <= i < |s.segments| ==> OnBoard(s.segments[i], width, height) && OnGrid(s.segments[i], size)
    ensures var r := Advanced(s, size, width, height);
      forall i :: 0 <= i < |r.segments| ==> OnBoard(r.segments[i], width, height) && OnGrid(r.segments[i], size)
  {
    var n := |s.segments|;
    NextHeadOnGrid(s.segments[0], s.nextDirection, size, width, height, s.segments[n - 1]);
    var r := Advanced(s, size, width, height);
    forall i | 1 <= i < |r.segments|
      ensures OnBoard(r.segments[i], width, height) && OnGrid(r.segments[i], size)
    {
      assert r.segments[i] == s.segments[i - 1];
    }
  }

  /**
   * Growing adds exactly one segment, at the back, on the head's position;
   * every other segment and both directions are unchanged.
   */
  lemma GrowAppendsAtHead(s: SnakeState)
    requires |s.segments| >= 1
    ensures var r := Grown(s);
      |r.segments| == |s.segments| + 1 && r.segments[..|s.segments|] == s.segments &&
      r.segments[|s.segments|] == s.segments[0] &&
      r.direction == s.direction && r.nextDirection == s.nextDirection
  {
  }

  /**
   * The segment added by growing is the one the next step recycles: after
   * growing and advancing, the snake is its whole old body behind a new head.
   */
  lemma GrowThenAdvanceKeepsBody(s: SnakeState, size: int, width: int, height: int)
    requires |s.segments| >= 1 && width > 0 && height > 0
    ensures Advanced(Grown(s), size, width, height).segments ==
            [NextHead(s.segments[0], s.nextDirection, size, width, height, s.segments[0])] + s.segments
  {
  }

  /** Resetting leaves the original head alone and clears both directions. */
  lemma ResetKeepsHead(s: SnakeState)
    requires |s.segments| >= 1
    ensures var r := ResetSnake(s);
      r.segments == [s.segments[0]] && r.direction == None && r.nextDirection == None
  {
  }

  /** Resetting twice is resetting once. */
  lemma ResetIdempotent(s: SnakeState)
    requires |s.segments| >= 1
    ensures ResetSnake(ResetSnake(s)) == ResetSnake(s)
  {
  }

  /** A key other than W, A, S, D changes nothing. */
  lemma OtherKeyIgnored(s: SnakeState)
    ensures WithInput(s, OtherKey) == s
  {
  }

  /**
   * Input touches only the pending direction: a direction key sets it
   * exactly when the snake has one segment or the key does not reverse the
   * current direction, and otherwise leaves it as it was.
   */
  lemma InputSetsPendingDirection(s: SnakeState, key: Key, d: Direction)
    requires KeyDirection(key) == Some(d)
    ensures var r := WithInput(s, key);
      r.segments == s.segments && r.direction == s.direction &&
      r.nextDirection == (if |s.segments| == 1 || !IsOppositeTo(d, s.direction) then Some(d) else s.nextDirection)
  {
  }

  // ---------------------------------------------------------------------
  // Game operations

  /**
   * The position a raw random draw is snapped to: the nearest lower
   * multiple of the entity size on each axis.
   */
  function RandomPosition(draw: Pos, size: int): (p: Pos)
    requires size > 0
    ensures OnGrid(p, size)
    ensures p.x <= draw.x < p.x + size && p.y <= draw.y < p.y + size
  {
    ModUnique(draw.x - draw.x % size, size, draw.x / size, 0);
    ModUnique(draw.y - draw.y % size, size, draw.y / size, 0);
    Pos(draw.x - draw.x % size, draw.y - draw.y % size)
  }

  /** A draw inside a window of whole cells snaps to a cell inside the window. */
  lemma RandomPositionInWindow(draw: Pos, size: int, width: int, height: int)
    requires Board(size, width, height) && OnBoard(draw, width, height)
    ensures OnBoard(RandomPosition(draw, size), width, height)
  {
    var p := RandomPosition(draw, size);
    if p.x < 0 { MultiplesApart(p.x, 0, size); }
    if p.y < 0 { MultiplesApart(p.y, 0, size); }
  }

  /** Every raw draw lies in the window, as the random generator promises. */
  predicate DrawsInWindow(draws: seq<Pos>, width: int, height: int)
  {
    forall k :: 0 <= k < |draws| ==> OnBoard(draws[k], width, height)
  }

  /** An entity square at `p` collides with no segment. */
  predicate Free(segments: seq<Pos>, p: Pos, size: int)
  {
    !CollidesFrom(segments, Square(p, size), 0)
  }

  /** Some draw snaps to a free position, so the rejection loop ends. */
  predicate HasFreeDraw(segments: seq<Pos>, draws: seq<Pos>, size: int)
    requires size > 0
  {
    exists k :: 0 <= k < |draws| && Free(segments, RandomPosition(draws[k], size), size)
  }

  /**
   * Rejection sampling: the first draw whose snapped position collides
   * with no segment.
   */
  function Relocate(segments: seq<Pos>, draws: seq<Pos>, size: int): (food: Pos)
    requires size > 0 && HasFreeDraw(segments, draws, size)
    ensures Free(segments, food, size)
    ensures exists k ::
      0 <= k < |draws| && food == RandomPosition(draws[k], size) &&
      (forall j :: 0 <= j < k ==> !Free(segments, RandomPosition(draws[j], size), size))
    decreases |draws|
  {
    var candidate := RandomPosition(draws[0], size);
    if Free(segments, candidate, size) then candidate
    else
      assert HasFreeDraw(segments, draws[1..], size) by {
        var k :| 0 <= k < |draws| && Free(segments, RandomPosition(draws[k], size), size);
        assert draws[1..][k - 1] == draws[k];
      }
      var food := Relocate(segments, draws[1..], size);
      ghost var k :| 0 <= k < |draws[1..]| && food == RandomPosition(draws[1..][k], size) &&
        forall j :: 0 <= j < k ==> !Free(segments, RandomPosition(draws[1..][j], size), size);
      assert food == RandomPosition(draws[k + 1], size);
      assert forall j :: 0 <= j < k + 1 ==> !Free(segments, RandomPosition(draws[j], size), size) by {
        forall j | 0 <= j < k + 1 ensures !Free(segments, RandomPosition(draws[j], size), size) {
          if j > 0 { assert draws[j] == draws[1..][j - 1]; }
        }
      }
      food
  }

  /** A rejected first draw is skipped: sampling goes on with the rest of the draws. */
  lemma SkipBlockedDraw(segments: seq<Pos>, draws: seq<Pos>, size: int)
    requires size > 0 && HasFreeDraw(segments, draws, size)
    requires !Free(segments, RandomPosition(draws[0], size), size)
    ensures HasFreeDraw(segments, draws[1..], size)
    ensures Relocate(segments, draws[1..], size) == Relocate(segments, draws, size)
  {
    var k :| 0 <= k < |draws| && Free(segments, RandomPosition(draws[k], size), size);
    assert draws[1..][k - 1] == draws[k];
  }

  /** After the step the head is clear of the body and lies on the food. */
  predicate Eats(g: GameState, size: int, width: int, height: int)
    requires |g.snake.segments| >= 1 && width > 0 && height > 0
  {
    var moved := Advanced(g.snake, size, width, height);
    !SelfCollides(moved, size) && Intersects(Square(moved.segments[0], size), Square(g.food, size))
  }

  /** What one update needs of the draws: a free one whenever the snake eats. */
  predicate CanRelocate(g: GameState, size: int, width: int, height: int, draws: seq<Pos>)
    requires |g.snake.segments| >= 1 && size > 0 && width > 0 && height > 0
  {
    Eats(g, size, width, height) ==> HasFreeDraw(Grown(Advanced(g.snake, size, width, height)).segments, draws, size)
  }

  /**
   * One update: advance; on self-collision reset the snake and the score;
   * otherwise, on reaching the food, grow, move the food to the first free
   * draw and add 10 to the score.
   */
  function Updated(g: GameState, size: int, width: int, height: int, draws: seq<Pos>): GameState
    requires |g.snake.segments| >= 1 && size > 0 && width > 0 && height > 0
    requires CanRelocate(g, size, width, height, draws)
  {
    var moved := Advanced(g.snake, size, width, height);
    if SelfCollides(moved, size) then GameState(ResetSnake(moved), g.food, 0)
    else if Intersects(Square(moved.segments[0], size), Square(g.food, size)) then
      var grown := Grown(moved);
      GameState(grown, Relocate(grown.segments, draws, size), g.score + 10)
    else g.(snake := moved)
  }

  /** A direction key changes the snake's pending direction only. */
  function InputApplied(g: GameState, key: Key): GameState
  {
    g.(snake := WithInput(g.snake, key))
  }

  /**
   * A snake longer than one segment never has a pending direction that
   * reverses its current one.
   */
  predicate NoReversal(s: SnakeState)
  {
    |s.segments| > 1 && s.nextDirection.Some? ==> !IsOppositeTo(s.nextDirection.value, s.direction)
  }

  /**
   * What every reachable game state satisfies: the snake and the food sit
   * on cells of the window, the score is 10 per segment beyond the head,
   * and no reversal is pending.
   */
  predicate Inv(g: GameState, size: int, width: int, height: int)
  {
    Board(size, width, height) && |g.snake.segments| >= 1 &&
    (forall i :: 0 <= i < |g.snake.segments| ==>
      OnBoard(g.snake.segments[i], width, height) && OnGrid(g.snake.segments[i], size)) &&
    OnBoard(g.food, width, height) && OnGrid(g.food, size) &&
    g.score == 10 * (|g.snake.segments| - 1) &&
    NoReversal(g.snake)
  }

  /** The starting game: one segment and the food at two snapped draws, score 0. */
  lemma InitialStateInv(playerDraw: Pos, foodDraw: Pos, size: int, width: int, height: int)
    requires Board(size, width, height)
    requires OnBoard(playerDraw, width, height) && OnBoard(foodDraw, width, height)
    ensures Inv(GameState(SnakeState([RandomPosition(playerDraw, size)], None, None), RandomPosition(foodDraw, size), 0), size, width, height)
  {
    RandomPositionInWindow(playerDraw, size, width, height);
    RandomPositionInWindow(foodDraw, size, width, height);
  }

  /** On self-collision after the step, the snake is cut to its new head, the directions are cleared and the score is 0. */
  lemma UpdateOnSelfCollision(g: GameState, size: int, width: int, height: int, draws: seq<Pos>)
    requires |g.snake.segments| >= 1 && size > 0 && width > 0 && height > 0
    requires CanRelocate(g, size, width, height, draws)
    requires SelfCollides(Advanced(g.snake, size, width, height), size)
    ensures var r := Updated(g, size, width, height, draws);
      r.snake == SnakeState([Advanced(g.snake, size, width, height).segments[0]], None, None) &&
      r.score == 0 && r.food == g.food
  {
  }

  /**
   * On eating, the snake grows by one segment, the score by 10, and the
   * food moves to a cell of the window that no segment occupies.
   */
  lemma {:induction false} UpdateOnEat(g: GameState, size: int, width: int, height: int, draws: seq<Pos>)
    requires Inv(g, size, width, height) && DrawsInWindow(draws, width, height)
    requires CanRelocate(g, size, width, height, draws)
    requires Eats(g, size, width, height)
    ensures var r := Updated(g, size, width, height, draws);
      |r.snake.segments| == |g.snake.segments| + 1 && r.score == g.score + 10 &&
      Free(r.snake.segments, r.food, size) &&
      OnBoard(r.food, width, height) &&
      forall i :: 0 <= i < |r.snake.segments| ==> r.snake.segments[i] != r.food
  {
    var r := Updated(g, size, width, height, draws);
    AdvanceStaysOnGrid(g.snake, size, width, height);
    var k :| 0 <= k < |draws| && r.food == RandomPosition(draws[k], size);
    RandomPositionInWindow(draws[k], size, width, height);
    CollisionOnGridIffOccupied(r.snake.segments, r.food, size, 0);
  }

  /** Without self-collision or food, an update is just the step. */
  lemma UpdateOtherwise(g: GameState, size: int, width: int, height: int, draws: seq<Pos>)
    requires |g.snake.segments| >= 1 && size > 0 && width > 0 && height > 0
    requires CanRelocate(g, size, width, height, draws)
    requires !SelfCollides(Advanced(g.snake, size, width, height), size) && !Eats(g, size, width, height)
    ensures Updated(g, size, width, height, draws) == g.(snake := Advanced(g.snake, size, width, height))
  {
  }

  /** Every update keeps the game invariant. */
  lemma {:induction false} UpdatePreservesInv(g: GameState, size: int, width: int, height: int, draws: seq<Pos>)
    requires Inv(g, size, width, height) && DrawsInWindow(draws, width, height)
    requires CanRelocate(g, size, width, height, draws)
    ensures Inv(Updated(g, size, width, height, draws), size, width, height)
  {
    var moved := Advanced(g.snake, size, width, height);
    AdvanceStaysOnGrid(g.snake, size, width, height);
    if moved.direction.Some? { NotOppositeToItself(moved.direction.value); }
    assert NoReversal(moved);
    var r := Updated(g, size, width, height, draws);
    if SelfCollides(moved, size) {
      assert r.snake.segments == [moved.segments[0]];
    } else if Intersects(Square(moved.segments[0], size), Square(g.food, size)) {
      var grown := Grown(moved);
      assert r.snake == grown;
      var k :| 0 <= k < |draws| && r.food == RandomPosition(draws[k], size);
      RandomPositionInWindow(draws[k], size, width, height);
      assert forall i :: 0 <= i < |grown.segments| ==> grown.segments[i] == (if i < |moved.segments| then moved.segments[i] else moved.segments[0]);
    } else {
      assert r == g.(snake := moved);
    }
  }

  /** Input keeps the game invariant: in particular it never arms a reversal. */
  lemma InputPreservesInv(g: GameState, key: Key, size: int, width: int, height: int)
    requires Inv(g, size, width, height)
    ensures Inv(InputApplied(g, key), size, width, height)
  {
  }

  /**
   * If the snake starts on the food and no key is pressed, it eats in
   * place: the new segment is put on the head's cell, and since the idle
   * step recycles that very segment onto the same cell, the following
   * update finds a self-collision and resets the game to score 0.
   */
  lemma {:induction false} IdleStartOnFoodResets(p: Pos, size: int, width: int, height: int, draws: seq<Pos>, later: seq<Pos>)
    requires size > 0 && width > 0 && height > 0
    requires CanRelocate(GameState(SnakeState([p], None, None), p, 0), size, width, height, draws)
    ensures var g := GameState(SnakeState([p], None, None), p, 0);
      var once := Updated(g, size, width, height, draws);
      once.score == 10 && |once.snake.segments| == 2 &&
      CanRelocate(once, size, width, height, later) &&
      var twice := Updated(once, size, width, height, later);
      twice.score == 0 && twice.snake.segments == [p]
  {
    var g := GameState(SnakeState([p], None, None), p, 0);
    var moved := Advanced(g.snake, size, width, height);
    assert moved.segments == [p];
    assert Intersects(Square(p, size), Square(p, size));
    assert Grown(moved).segments == [p, p];
    var once := Updated(g, size, width, height, draws);
    assert once.snake.segments == [p, p];
    var again := Advanced(once.snake, size, width, height);
    assert again.segments == [p, p];
    assert Intersects(Square(p, size), ProbeAt(Square(p, size), again.segments[1]));
    assert SelfCollides(again, size);
  }
}
