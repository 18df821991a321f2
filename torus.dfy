/**
 * The wrap-around arithmetic of one snake step: the window is a torus, a
 * head that leaves one edge comes back at the opposite edge.
 */
module Torus {
  import opened Wrappers
  import opened Geometry
  import opened Directions

  /**
   * The `%` the step applies to its floating-point coordinates: the
   * remainder of division truncated toward zero, which takes the sign of
   * the dividend (unlike Dafny's `%`, which is never negative).
   */
  function TruncRem(a: int, m: int): (r: int)
    requires m > 0
    ensures -m < r < m
    ensures a >= 0 ==> r >= 0
    ensures a < 0 ==> r <= 0
    ensures (a - r) % m == 0
  {
    if a >= 0 then
      ModUnique(a - a % m, m, a / m, 0);
      a % m
    else
      ModUnique(a + (-a) % m, m, -((-a) / m), 0);
      -((-a) % m)
  }

  /** Euclidean division is determined by its quotient-remainder equation. */
  lemma ModUnique(a: int, m: int, q: int, r: int)
    requires m > 0 && 0 <= r < m && a == m * q + r
    ensures a % m == r && a / m == q
  {
    var k := a / m - q;
    assert m * k == r - a % m;
    if k >= 1 { MulMonotone(m, 1, k); }
    if k <= -1 { MulMonotone(m, k, -1); }
  }

  /**
   * The position the recycled tail segment is given when it becomes the new
   * head: the old head moved one entity size in `direction`, wrapped into
   * the window; with no direction yet it keeps the tail's own position.
   */
  function NextHead(head: Pos, direction: Option<Direction>, size: int, width: int, height: int, tail: Pos): Pos
    requires width > 0 && height > 0
  {
    match direction
    case Some(Left) => Pos(TruncRem(head.x - size + width, width), head.y)
    case Some(Up) => Pos(head.x, TruncRem(head.y - size + height, height))
    case Some(Right) => Pos(TruncRem(head.x + size, width), head.y)
    case Some(Down) => Pos(head.x, TruncRem(head.y + size, height))
    case None => tail
  }

  /**
   * From a head inside the window, a step lands on the head translated by
   * one entity size along the direction, reduced modulo the window extent
   * on each axis: the torus neighbour.
   */
  lemma NextHeadIsWrappedOffset(head: Pos, d: Direction, size: int, width: int, height: int, tail: Pos)
    requires width > 0 && height > 0 && OnBoard(head, width, height)
    requires 0 <= size <= width && size <= height
    ensures NextHead(head, Some(d), size, width, height, tail) ==
            Pos((head.x + size * Delta(d).0) % width, (head.y + size * Delta(d).1) % height)
  {
    ModSmall(head.x, width);
    ModSmall(head.y, height);
    match d
    case Left => AddModulus(head.x - size, width);
    case Up => AddModulus(head.y - size, height);
    case Right =>
    case Down =>
  }

  lemma AddModulus(a: int, m: int)
    requires m > 0
    ensures (a + m) % m == a % m
  {
    ModUnique(a + m, m, a / m + 1, a % m);
  }

  lemma ModSmall(a: int, m: int)
    requires 0 <= a < m
    ensures a % m == a
  {
  }

  lemma ModOnce(a: int, m: int)
    requires 0 < m <= a < 2 * m
    ensures a % m == a - m
  {
  }

  /**
   * When the window is a whole number of cells, a head on a cell inside
   * it moves to a cell inside it; the step keeps the snake on the board
   * and on the grid. With no direction, the tail's cell is kept.
   */
  lemma {:induction false} NextHeadOnGrid(head: Pos, direction: Option<Direction>, size: int, width: int, height: int, tail: Pos)
    requires size > 0 && width > 0 && height > 0 && width % size == 0 && height % size == 0
    requires OnBoard(head, width, height) && OnGrid(head, size)
    requires OnBoard(tail, width, height) && OnGrid(tail, size)
    ensures OnBoard(NextHead(head, direction, size, width, height, tail), width, height)
    ensures OnGrid(NextHead(head, direction, size, width, height, tail), size)
  {
    match direction
    case Some(Left) => StepBackOnGrid(head.x, size, width);
    case Some(Up) => StepBackOnGrid(head.y, size, height);
    case Some(Right) => StepForwardOnGrid(head.x, size, width);
    case Some(Down) => StepForwardOnGrid(head.y, size, height);
    case None =>
  }

  /** One axis of a step toward the origin: from cell `c`, the previous cell, or the last one at the edge. */
  lemma StepBackOnGrid(c: int, size: int, extent: int)
    requires size > 0 && extent > 0 && extent % size == 0
    requires 0 <= c < extent && c % size == 0
    ensures var r := TruncRem(c - size + extent, extent);
      0 <= r < extent && r % size == 0 && r == (if c == 0 then extent - size else c - size)
  {
    MultiplesApart(c, extent, size);
    if c == 0 {
      ModSmall(extent - size, extent);
      SubMultiple(extent, size);
    } else {
      MultiplesApart(0, c, size);
      ModOnce(c - size + extent, extent);
      SubMultiple(c, size);
    }
  }

  /** One axis of a step away from the origin: from cell `c`, the next cell, or cell 0 at the edge. */
  lemma StepForwardOnGrid(c: int, size: int, extent: int)
    requires size > 0 && extent > 0 && extent % size == 0
    requires 0 <= c < extent && c % size == 0
    ensures var r := TruncRem(c + size, extent);
      0 <= r < extent && r % size == 0 && r == (if c + size == extent then 0 else c + size)
  {
    MultiplesApart(c, extent, size);
    if c + size < extent {
      ModSmall(c + size, extent);
      AddMultiple(c, size);
    } else {
      ModUnique(extent, extent, 1, 0);
    }
  }

  lemma SubMultiple(a: int, s: int)
    requires s > 0 && a % s == 0
    ensures (a - s) % s == 0
  {
    ModUnique(a, s, a / s, 0);
    ModUnique(a - s, s, a / s - 1, 0);
  }

  lemma AddMultiple(a: int, s: int)
    requires s > 0 && a % s == 0
    ensures (a + s) % s == 0
  {
    ModUnique(a, s, a / s, 0);
    ModUnique(a + s, s, a / s + 1, 0);
  }

  /** Before the first move (no direction) a one-segment snake stays where it is. */
  lemma UnsetDirectionKeepsTail(head: Pos, size: int, width: int, height: int, tail: Pos)
    requires width > 0 && height > 0
    ensures NextHead(head, None, size, width, height, tail) == tail
  {
  }
}
