/** The integer vector types both headers of the game define in the same
    way: `Direction` (a step), `Position` (a cell) and the `GameBoard`
    record. Compound assignments (`+=`, `-=`, `++`, `--`) are functions from
    the old value to the new one. */
module Geometry {
  import opened CppArith

  /** `Direction`: a step `(x, y)`. */
  datatype Direction = Direction(x: int, y: int)
  {
    /** `operator+`. */
    function Plus(other: Direction): Direction
    {
      Direction(x + other.x, y + other.y)
    }

    /** The step that undoes this one. */
    function Opposite(): Direction
    {
      Direction(-x, -y)
    }

    /** `normalize()` as `Game::Direction` writes it: each component
        becomes its sign. */
    function Normalize(): (r: Direction)
      ensures -1 <= r.x <= 1 && -1 <= r.y <= 1
      ensures Abs(x) * r.x == x && Abs(y) * r.y == y
      ensures (x > 0 ==> r.x == 1) && (x < 0 ==> r.x == -1) && (x == 0 ==> r.x == 0)
      ensures (y > 0 ==> r.y == 1) && (y < 0 ==> r.y == -1) && (y == 0 ==> r.y == 0)
    {
      Direction(Sign(x), Sign(y))
    }
  }

  function Sign(a: int): (s: int)
  {
    if a > 0 then 1 else if a < 0 then -1 else 0
  }

  const Zero := Direction(0, 0)

  /** `Position`: a cell `(x, y)` of the board. */
  datatype Position = Position(x: int, y: int)
  {
    /** `operator+=` and `operator+` with a direction. */
    function Plus(d: Direction): Position
    {
      Position(x + d.x, y + d.y)
    }

    /** `operator-=` and `operator-` with a direction. */
    function Minus(d: Direction): Position
    {
      Position(x - d.x, y - d.y)
    }

    /** `operator-(start_point)`: the direction from `start` to this cell. */
    function Difference(start: Position): (d: Direction)
      ensures start.Plus(d) == this
    {
      DirectionBetween(start, this)
    }

    /** Prefix `++`: one column on. */
    function PrefixIncrement(): Position
    {
      Position(x + 1, y)
    }

    /** Prefix `--`: one column back. */
    function PrefixDecrement(): Position
    {
      Position(x - 1, y)
    }

    /** Postfix `++`: one row on (and the result is the changed object itself). */
    function PostfixIncrement(): Position
    {
      Position(x, y + 1)
    }

    /** Postfix `--`: one row back. */
    function PostfixDecrement(): Position
    {
      Position(x, y - 1)
    }
  }

  /** `Position::distance_squared`. */
  function DistanceSquared(p1: Position, p2: Position): (d: int)
    ensures d >= 0
    ensures d == 0 <==> p1 == p2
  {
    var dx := p2.x - p1.x;
    var dy := p2.y - p1.y;
    SquareZeroOnlyAtZero(dx);
    SquareZeroOnlyAtZero(dy);
    dx * dx + dy * dy
  }

  lemma SquareZeroOnlyAtZero(a: int)
    ensures a * a >= 0
    ensures a * a == 0 <==> a == 0
  {
    if a > 0 {
      assert a * a >= a;
    } else if a < 0 {
      assert a * a == (-a) * (-a);
      assert (-a) * (-a) >= -a;
    }
  }

  /** `Position::direction(start_point, end_point)`. */
  function DirectionBetween(start: Position, end: Position): Direction
  {
    Direction(end.x - start.x, end.y - start.y)
  }

  /** `GameBoard`: the size of the field and how the edges behave. */
  datatype GameBoard = GameBoard(width: int, height: int, loopX: bool, loopY: bool,
                                 invertX: bool, invertY: bool)
  {
    /** `size()`. */
    function Size(): (s: int)
      ensures width >= 0 && height >= 0 ==> s >= 0
      ensures s == 0 <==> width == 0 || height == 0
    {
      ProductZero(width, height);
      width * height
    }

    predicate OnBoard(p: Position)
    {
      0 <= p.x < width && 0 <= p.y < height
    }
  }

  /** `GameBoard(width, height)` with the default arguments: both axes
      loop and neither is inverted. */
  function NewBoard(width: int, height: int): (b: GameBoard)
    ensures b.width == width && b.height == height
    ensures b.loopX && b.loopY && !b.invertX && !b.invertY
  {
    GameBoard(width, height, true, true, false, false)
  }

  // ---------------------------------------------------------------------
  // Properties of the arithmetic

  /** Moving by `d` and then back by `d` (either order) returns to the start. */
  lemma PlusMinusRoundTrip(p: Position, d: Direction)
    ensures p.Plus(d).Minus(d) == p
    ensures p.Minus(d).Plus(d) == p
    ensures p.Minus(d) == p.Plus(d.Opposite())
  {
  }

  /** Moving by `d` then by `e` is moving by `d + e`. */
  lemma PlusComposes(p: Position, d: Direction, e: Direction)
    ensures p.Plus(d).Plus(e) == p.Plus(d.Plus(e))
  {
  }

  /** Direction sum is commutative and has `(0, 0)` as its identity. */
  lemma DirectionSumLaws(d: Direction, e: Direction)
    ensures d.Plus(e) == e.Plus(d)
    ensures d.Plus(Zero) == d
  {
  }

  /** Two steps cancel exactly when one is the other reversed. */
  lemma SumZeroIffOpposite(d: Direction, e: Direction)
    ensures d.Plus(e) == Zero <==> e == d.Opposite()
  {
  }

  /** `p - q` is `direction(q, p)`, and it is the unique step from `q` to `p`. */
  lemma DifferenceIsDirection(p: Position, q: Position, d: Direction)
    ensures p.Difference(q) == DirectionBetween(q, p)
    ensures q.Plus(d) == p <==> d == p.Difference(q)
  {
  }

  /** `distance_squared` does not depend on the order of its arguments and
      is the squared length of the step between them. */
  lemma DistanceSquaredSymmetric(p: Position, q: Position)
    ensures DistanceSquared(p, q) == DistanceSquared(q, p)
    ensures DistanceSquared(p, q) == q.Difference(p).x * q.Difference(p).x + q.Difference(p).y * q.Difference(p).y
  {
    var dx, dy := q.x - p.x, q.y - p.y;
    assert (-dx) * (-dx) == dx * dx;
    assert (-dy) * (-dy) == dy * dy;
  }

  /** Normalizing twice is normalizing once, and a step and its
      normalization point into the same quadrant. */
  lemma NormalizeIdempotent(d: Direction)
    ensures d.Normalize().Normalize() == d.Normalize()
    ensures d.Normalize() == Zero <==> d == Zero
    ensures d.Opposite().Normalize() == d.Normalize().Opposite()
  {
  }

  /** Prefix `++`/`--` change only `x`, postfix `++`/`--` only `y`, each by
      one, and each undoes its partner. */
  lemma IncrementsMoveOneAxis(p: Position)
    ensures p.PrefixIncrement() == p.Plus(Direction(1, 0))
    ensures p.PrefixDecrement() == p.Plus(Direction(-1, 0))
    ensures p.PostfixIncrement() == p.Plus(Direction(0, 1))
    ensures p.PostfixDecrement() == p.Plus(Direction(0, -1))
    ensures p.PrefixIncrement().PrefixDecrement() == p
    ensures p.PostfixIncrement().PostfixDecrement() == p
  {
  }
}
