/** The eight named steps of the snake game, with `y` growing upwards
    (`Up` is `(0, 1)`), and the `normalize` of its own `Direction` class. */
module SnakeDirections {
  import opened Geometry

  const Up := Direction(0, 1)
  const Down := Direction(0, -1)
  const Left := Direction(-1, 0)
  const Right := Direction(1, 0)
  const UpRight := Direction(1, 1)
  const UpLeft := Direction(-1, 1)
  const DownLeft := Direction(-1, -1)
  const DownRight := Direction(1, -1)

  /** A step of at most one cell along each axis that does move. */
  predicate IsUnitStep(d: Direction)
  {
    -1 <= d.x <= 1 && -1 <= d.y <= 1 && d != Zero
  }

  /** The diagonals are sums of the straight steps, each step's reverse is
      also named, and all eight are unit steps; postfix `++` on a position
      moves it `Up` and prefix `++` moves it `Right`. */
  lemma NamedStepsYUp(p: Position)
    ensures UpRight == Up.Plus(Right) && UpLeft == Up.Plus(Left)
    ensures DownLeft == Down.Plus(Left) && DownRight == Down.Plus(Right)
    ensures Down == Up.Opposite() && Left == Right.Opposite()
    ensures DownLeft == UpRight.Opposite() && DownRight == UpLeft.Opposite()
    ensures forall d :: d in {Up, Down, Left, Right, UpRight, UpLeft, DownLeft, DownRight} ==> IsUnitStep(d)
    ensures p.PostfixIncrement() == p.Plus(Up) && p.PrefixIncrement() == p.Plus(Right)
  {
  }

  /** `normalize()` as this class writes it: the second test repeats
      `> 0`, so a negative component becomes 0, not -1. */
  function NormalizeAsWritten(d: Direction): (r: Direction)
    ensures 0 <= r.x <= 1 && 0 <= r.y <= 1
    ensures r.x == 1 <==> d.x > 0
    ensures r.y == 1 <==> d.y > 0
  {
    Direction(if d.x > 0 then 1 else if d.x > 0 then -1 else 0,
              if d.y > 0 then 1 else if d.y > 0 then -1 else 0)
  }

  /** The two agree exactly on steps without a negative component;
      `Left` shows the difference. */
  lemma NormalizeAsWrittenLosesNegatives(d: Direction)
    ensures NormalizeAsWritten(d) == d.Normalize() <==> d.x >= 0 && d.y >= 0
    ensures NormalizeAsWritten(Left) == Zero && Left.Normalize() == Left
  {
  }
}
