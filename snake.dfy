/**
 * The snake as the game keeps it: a double-ended queue of segment
 * positions (head first) and two direction fields, updated in place.
 * Each state-changing method is proved to follow the matching function of
 * the Rules module.
 */
module Snakes {
  import opened Wrappers
  import opened Geometry
  import opened Directions
  import opened Torus
  import opened Rules

  class Snake {
    var segments: seq<Pos>
    var direction: Option<Direction>
    var nextDirection: Option<Direction>
    /** The side of every segment; all segments share it. */
    const size: int

    /** The snake always has a head, and its segments have positive size. */
    ghost predicate Valid()
      reads this
    {
      |segments| >= 1 && size > 0
    }

    /** The snake as a value. */
    function State(): SnakeState
      reads this
    {
      SnakeState(segments, direction, nextDirection)
    }

    /** A snake of one segment at `position`, not yet moving. */
    constructor (position: Pos, size: int)
      requires size > 0
      ensures Valid() && this.size == size
      ensures State() == SnakeState([position], None, None)
    {
      this.size := size;
      segments := [position];
      direction := None;
      nextDirection := None;
    }

    function HeadPosition(): Pos
      reads this
      requires Valid()
    {
      segments[0]
    }

    /** The area of the head. */
    function Area(): Rect
      reads this
      requires Valid()
    {
      Square(HeadPosition(), size)
    }

    /**
     * Scans the segments from index `nSkip` on and reports whether `area`
     * overlaps a probe of its size at one of them, stopping at the first.
     */
    method Collision(area: Rect, nSkip: nat) returns (hit: bool)
      ensures hit <==> CollidesFrom(segments, area, nSkip)
    {
      var i := nSkip;
      while i < |segments|
        invariant nSkip <= i
        invariant forall j :: nSkip <= j < i && j < |segments| ==> !Intersects(area, ProbeAt(area, segments[j]))
        decreases |segments| - i
      {
        if Intersects(area, ProbeAt(area, segments[i])) {
          return true;
        }
        i := i + 1;
      }
      return false;
    }

    /** The head collides with a segment behind it. */
    method SelfCollision() returns (hit: bool)
      requires Valid()
      ensures hit <==> SelfCollides(State(), size)
    {
      hit := Collision(Area(), 1);
    }

    /** Pushes a new segment at the back, on the head's position. */
    method Grow()
      requires Valid()
      modifies this
      ensures Valid()
      ensures State() == Grown(old(State()))
    {
      segments := segments + [HeadPosition()];
    }

    /** Pops segments off the back until only the head is left, and clears both directions. */
    method Reset()
      requires Valid()
      modifies this
      ensures Valid()
      ensures State() == ResetSnake(old(State()))
    {
      while |segments| > 1
        invariant 1 <= |segments| <= |old(segments)|
        invariant segments == old(segments)[..|segments|]
        decreases |segments|
      {
        segments := segments[..|segments| - 1];
      }
      direction := None;
      nextDirection := None;
    }

    /**
     * Commits the pending direction, pops the tail, moves it to the next
     * head position (wrapping around the window) and pushes it in front.
     */
    method Advance(width: int, height: int)
      requires Valid() && width > 0 && height > 0
      modifies this
      ensures Valid()
      ensures State() == Advanced(old(State()), size, width, height)
    {
      direction := nextDirection;
      var front := HeadPosition();
      var last := segments[|segments| - 1];
      segments := segments[..|segments| - 1];
      segments := [NextHead(front, direction, size, width, height, last)] + segments;
    }
  }
}
