/**
 * Positions and axis-aligned rectangles of the play field.
 *
 * The game stores coordinates as single-precision floats, but every
 * position it ever produces is a whole multiple of the entity size (the
 * window is truncated to a multiple of it, random positions are snapped
 * to it and every move is one entity size), so coordinates are integers
 * here.
 */
module Geometry {

  /** The top-left corner of an entity. */
  datatype Pos = Pos(x: int, y: int)

  /** A rectangle given by its left and top edges, width and height. */
  datatype Rect = Rect(left: int, top: int, width: int, height: int)

  /** The area of a square entity of side `size` whose corner is `p`. */
  function Square(p: Pos, size: int): Rect
  {
    Rect(p.x, p.y, size, size)
  }

  function Min(a: int, b: int): int { if a <= b then a else b }
  function Max(a: int, b: int): int { if a <= b then b else a }

  /**
   * True iff the rectangle intersection reports an overlap: the
   * intersection of the two rectangles has positive width and height.
   * Touching edges do not overlap.
   */
  predicate Intersects(a: Rect, b: Rect)
  {
    Max(a.left, b.left) < Min(a.left + a.width, b.left + b.width) &&
    Max(a.top, b.top) < Min(a.top + a.height, b.top + b.height)
  }

  /** The unit cell whose corner is (x, y) lies inside `r`. */
  predicate CellInside(r: Rect, x: int, y: int)
  {
    r.left <= x < r.left + r.width && r.top <= y < r.top + r.height
  }

  /** `p` lies in the window of the given size, whose origin is (0, 0). */
  predicate OnBoard(p: Pos, width: int, height: int)
  {
    0 <= p.x < width && 0 <= p.y < height
  }

  /** Both coordinates of `p` are multiples of `size`. */
  predicate OnGrid(p: Pos, size: int)
    requires size > 0
  {
    p.x % size == 0 && p.y % size == 0
  }

  /** Two integer rectangles overlap exactly when they share a unit cell. */
  lemma IntersectsIffSharedCell(a: Rect, b: Rect)
    ensures Intersects(a, b) <==> exists x, y :: CellInside(a, x, y) && CellInside(b, x, y)
  {
    if Intersects(a, b) {
      assert CellInside(a, Max(a.left, b.left), Max(a.top, b.top));
      assert CellInside(b, Max(a.left, b.left), Max(a.top, b.top));
    }
  }

  /** Overlap does not depend on the order of the two rectangles. */
  lemma IntersectsSymmetric(a: Rect, b: Rect)
    ensures Intersects(a, b) <==> Intersects(b, a)
  {
  }

  /** Two squares of the same side overlap iff their corners are less than a side apart on both axes. */
  lemma SquaresIntersect(p: Pos, q: Pos, size: int)
    requires size > 0
    ensures Intersects(Square(p, size), Square(q, size)) <==>
            (-size < p.x - q.x < size && -size < p.y - q.y < size)
  {
  }

  /** Two distinct multiples of `s` lie at least `s` apart. */
  lemma MultiplesApart(a: int, b: int, s: int)
    requires s > 0 && a % s == 0 && b % s == 0 && a < b
    ensures a + s <= b
  {
    var i, j := a / s, b / s;
    assert a == s * i && b == s * j;
    MulMonotone(s, i + 1, j);
  }

  lemma MulMonotone(s: int, i: int, j: int)
    requires s > 0 && i <= j
    ensures s * i <= s * j
  {
  }

  /** On the grid, two entity squares overlap exactly when they sit on the same cell. */
  lemma {:induction false} GridSquaresIntersectIffEqual(p: Pos, q: Pos, size: int)
    requires size > 0 && OnGrid(p, size) && OnGrid(q, size)
    ensures Intersects(Square(p, size), Square(q, size)) <==> p == q
  {
    SquaresIntersect(p, q, size);
    if p.x < q.x { MultiplesApart(p.x, q.x, size); }
    if q.x < p.x { MultiplesApart(q.x, p.x, size); }
    if p.y < q.y { MultiplesApart(p.y, q.y, size); }
    if q.y < p.y { MultiplesApart(q.y, p.y, size); }
  }
}
