/** The four movement directions of the snake and the opposite-direction test. */
module Directions {
  import opened Wrappers

  datatype Direction = Left | Up | Right | Down

  /**
   * True only if `other` is present and is the cardinal opposite of `d`.
   * Used to refuse a 180 degree turn into the snake's own neck.
   */
  predicate IsOppositeTo(d: Direction, other: Option<Direction>)
  {
    match other
    case Some(e) =>
      (match d
       case Left => e == Right
       case Up => e == Down
       case Right => e == Left
       case Down => e == Up)
    case None => false
  }

  /** The unit step of a direction in window coordinates (y grows downward). */
  function Delta(d: Direction): (int, int)
  {
    match d
    case Left => (-1, 0)
    case Up => (0, -1)
    case Right => (1, 0)
    case Down => (0, 1)
  }

  /** No pending or current direction is opposite to nothing. */
  lemma NotOppositeToNone(d: Direction)
    ensures !IsOppositeTo(d, None)
  {
  }

  /** Opposite means stepping in exactly the reverse direction. */
  lemma OppositeIffReversedStep(d: Direction, e: Direction)
    ensures IsOppositeTo(d, Some(e)) <==> Delta(e) == (-Delta(d).0, -Delta(d).1)
  {
  }

  /** Left and Right, Up and Down: the relation is symmetric. */
  lemma OppositeSymmetric(d: Direction, e: Direction)
    ensures IsOppositeTo(d, Some(e)) <==> IsOppositeTo(e, Some(d))
  {
  }

  /** No direction is its own opposite. */
  lemma NotOppositeToItself(d: Direction)
    ensures !IsOppositeTo(d, Some(d))
  {
  }

  /** Every direction has exactly one opposite. */
  lemma OppositeUnique(d: Direction, e: Direction, f: Direction)
    requires IsOppositeTo(d, Some(e)) && IsOppositeTo(d, Some(f))
    ensures e == f
  {
  }
}
