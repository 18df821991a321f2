/**
 * The game object: the snake, the food, the score and the window it plays
 * in, with the input handler and the fixed-step update.
 */
module Game {
  import opened Wrappers
  import opened Geometry
  import opened Directions
  import opened Torus
  import opened Rules
  import opened Snakes

  /** The window size actually used: the requested size cut down to a multiple of the entity size. */
  function TruncateWindow(requested: int, entitySize: int): (extent: int)
    requires entitySize > 0 && requested >= entitySize
    ensures 0 < extent <= requested && extent % entitySize == 0
    ensures requested - extent < entitySize
  {
    ModUnique(requested - requested % entitySize, entitySize, requested / entitySize, 0);
    requested - requested % entitySize
  }

  function Pow10(k: nat): nat
  {
    if k == 0 then 1 else 10 * Pow10(k - 1)
  }

  /**
   * The number of decimal digits of `n` (1 for 0), used to right-align the
   * score text: the smallest count with n < 10^count.
   */
  method DigitCount(n: nat) returns (count: nat)
    ensures count >= 1 && n < Pow10(count)
    ensures count == 1 || Pow10(count - 1) <= n
  {
    var m := n;
    count := 1;
    while m / 10 != 0
      invariant count >= 1
      invariant m * Pow10(count - 1) <= n < (m + 1) * Pow10(count - 1)
      invariant count == 1 || Pow10(count - 1) <= n
      decreases m
    {
      DropDigit(n, m, Pow10(count - 1));
      count := count + 1;
      m := m / 10;
    }
    LastDigit(n, m, Pow10(count - 1));
  }

  /** If n lies in [m*p, (m+1)*p) and m has two digits or more, n lies in [(m/10)*10p, (m/10+1)*10p) and n >= 10p. */
  lemma DropDigit(n: nat, m: nat, p: nat)
    requires p > 0 && m >= 10 && m * p <= n < (m + 1) * p
    ensures (m / 10) * (10 * p) <= n < (m / 10 + 1) * (10 * p)
    ensures 10 * p <= n
  {
    var q, r := m / 10, m % 10;
    assert m == 10 * q + r;
    assert q * (10 * p) == (10 * q) * p;
    MulLeq(10 * q, m, p);
    MulLeq(m + 1, 10 * q + 10, p);
    assert (10 * q + 10) * p == (q + 1) * (10 * p);
    MulLeq(10, m, p);
  }

  /** A one-digit m puts n below 10p. */
  lemma LastDigit(n: nat, m: nat, p: nat)
    requires p > 0 && m < 10 && n < (m + 1) * p
    ensures n < 10 * p
  {
  }

  lemma MulLeq(a: int, b: int, p: nat)
    requires a <= b
    ensures a * p <= b * p
  {
  }

  class SnakeGame {
    const player: Snake
    var food: Pos
    var score: nat
    const entitySize: int
    const width: int
    const height: int

    /** The game invariant of the Rules module holds of the current state. */
    ghost predicate Valid()
      reads this, player
    {
      player.Valid() && player.size == entitySize && Inv(State(), entitySize, width, height)
    }

    /** The game as a value. */
    function State(): GameState
      reads this, player
    {
      GameState(player.State(), food, score)
    }

    /**
     * A new game: the window cut to whole cells, a one-segment snake and the
     * food placed at two random draws (the food is not checked against the
     * snake), and score 0.
     */
    constructor (windowWidth: int, windowHeight: int, entitySize: int, playerDraw: Pos, foodDraw: Pos)
      requires entitySize > 0 && windowWidth >= entitySize && windowHeight >= entitySize
      requires OnBoard(playerDraw, TruncateWindow(windowWidth, entitySize), TruncateWindow(windowHeight, entitySize))
      requires OnBoard(foodDraw, TruncateWindow(windowWidth, entitySize), TruncateWindow(windowHeight, entitySize))
      ensures Valid() && fresh(player) && this.entitySize == entitySize
      ensures width == TruncateWindow(windowWidth, entitySize) && height == TruncateWindow(windowHeight, entitySize)
      ensures State() == GameState(SnakeState([RandomPosition(playerDraw, entitySize)], None, None), RandomPosition(foodDraw, entitySize), 0)
    {
      var w := TruncateWindow(windowWidth, entitySize);
      var h := TruncateWindow(windowHeight, entitySize);
      width, height := w, h;
      this.entitySize := entitySize;
      score := 0;
      player := new Snake(RandomPosition(playerDraw, entitySize), entitySize);
      food := RandomPosition(foodDraw, entitySize);
      InitialStateInv(playerDraw, foodDraw, entitySize, w, h);
    }

    /**
     * Maps W, A, S, D to a direction and arms it as the snake's next
     * direction, unless it would reverse a snake of more than one segment.
     */
    method HandleInput(key: Key)
      requires Valid()
      modifies player
      ensures Valid()
      ensures State() == InputApplied(old(State()), key)
    {
      match KeyDirection(key) {
        case Some(d) =>
          if |player.segments| == 1 || !IsOppositeTo(d, player.direction) {
            player.nextDirection := Some(d);
          }
        case None =>
      }
      InputPreservesInv(old(State()), key, entitySize, width, height);
    }

    method SetScore(value: nat)
      modifies this`score
      ensures score == value
    {
      score := value;
    }

    /** Cuts the snake to its head, clears its directions and sets the score to 0. */
    method ResetState()
      requires player.Valid()
      modifies this`score, player
      ensures player.Valid()
      ensures player.State() == ResetSnake(old(player.State())) && score == 0
    {
      player.Reset();
      SetScore(0);
    }

    /**
     * The rejection loop of the update: snaps the draws in order and stops
     * at the first position whose square collides with no segment.
     */
    method FreePosition(draws: seq<Pos>) returns (position: Pos)
      requires entitySize > 0 && HasFreeDraw(player.segments, draws, entitySize)
      ensures position == Relocate(player.segments, draws, entitySize)
    {
      var k := 0;
      position := RandomPosition(draws[k], entitySize);
      var blocked := player.Collision(Square(position, entitySize), 0);
      while blocked
        invariant 0 <= k < |draws| && position == RandomPosition(draws[k], entitySize)
        invariant blocked == !Free(player.segments, position, entitySize)
        invariant HasFreeDraw(player.segments, draws[k..], entitySize)
        invariant Relocate(player.segments, draws[k..], entitySize) == Relocate(player.segments, draws, entitySize)
        decreases |draws| - k
      {
        SkipBlockedDraw(player.segments, draws[k..], entitySize);
        assert draws[k..][1..] == draws[k + 1..];
        k := k + 1;
        position := RandomPosition(draws[k], entitySize);
        blocked := player.Collision(Square(position, entitySize), 0);
      }
      assert draws[k..][0] == draws[k];
    }

    /**
     * One fixed step: advance the snake; on self-collision reset the game;
     * otherwise, if the head is on the food, grow, draw positions until one
     * is clear of the snake, put the food there and add 10 to the score.
     * `draws` are the random generator's raw outputs, in order.
     */
    method Update(draws: seq<Pos>)
      requires Valid() && DrawsInWindow(draws, width, height)
      requires CanRelocate(State(), entitySize, width, height, draws)
      modifies this, player
      ensures Valid()
      ensures State() == Updated(old(State()), entitySize, width, height, draws)
    {
      ghost var g := State();
      player.Advance(width, height);
      var collided := player.SelfCollision();
      if collided {
        ResetState();
      } else if Intersects(player.Area(), Square(food, entitySize)) {
        player.Grow();
        food := FreePosition(draws);
        SetScore(score + 10);
      }
      UpdatePreservesInv(g, entitySize, width, height, draws);
    }
  }
}
