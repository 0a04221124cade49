/** The named steps of the game library, with `y` growing downwards (`Up`
    is `(0, -1)`), the extra `None`, and `Direction::to_string` /
    `Position::to_string`. */
module GameDirections {
  import opened Geometry
  import opened Decimal

  const Up := Direction(0, -1)
  const Down := Direction(0, 1)
  const Left := Direction(-1, 0)
  const Right := Direction(1, 0)
  const UpRight := Direction(1, -1)
  const UpLeft := Direction(-1, -1)
  const DownLeft := Direction(-1, 1)
  const DownRight := Direction(1, 1)
  const None := Direction(0, 0)

  /** The nine named steps: every step whose components lie in -1..1. */
  predicate IsNamed(d: Direction)
  {
    d in {Up, Down, Left, Right, UpRight, UpLeft, DownLeft, DownRight, None}
  }

  /** The diagonals are sums of the straight steps, `None` is the zero
      step, the named steps are exactly the normalized ones, and postfix
      `++` on a position moves it `Down`. */
  lemma NamedStepsYDown(p: Position, d: Direction)
    ensures UpRight == Up.Plus(Right) && UpLeft == Up.Plus(Left)
    ensures DownLeft == Down.Plus(Left) && DownRight == Down.Plus(Right)
    ensures Down == Up.Opposite() && Left == Right.Opposite() && None == Zero
    ensures IsNamed(d) <==> d.Normalize() == d
    ensures IsNamed(d.Normalize())
    ensures p.PostfixIncrement() == p.Plus(Down) && p.PrefixIncrement() == p.Plus(Right)
  {
  }

  /** `format_str("(%d/%d)", x, y)`. */
  function Coordinates(x: int, y: int): (s: string)
    ensures 5 <= |s| && s[0] == '(' && s[|s| - 1] == ')'
  {
    "(" + IntToDecimal(x) + "/" + IntToDecimal(y) + ")"
  }

  /** `Direction::to_string`: the name of a named step, else its coordinates. */
  function DirectionToString(d: Direction): (s: string)
    ensures 0 < |s| && (IsNamed(d) <==> s[0] != '(')
  {
    if d == Up then "Up"
    else if d == Down then "Down"
    else if d == Left then "Left"
    else if d == Right then "Right"
    else if d == UpRight then "UpRight"
    else if d == UpLeft then "UpLeft"
    else if d == DownLeft then "DownLeft"
    else if d == DownRight then "DownRight"
    else if d == None then "None"
    else Coordinates(d.x, d.y)
  }

  /** `Position::to_string`. */
  function PositionToString(p: Position): (s: string)
    ensures 0 < |s| && s[0] == '(' && s[|s| - 1] == ')'
  {
    Coordinates(p.x, p.y)
  }

  /** The coordinate text determines both coordinates. */
  lemma CoordinatesInjective(x1: int, y1: int, x2: int, y2: int)
    requires Coordinates(x1, y1) == Coordinates(x2, y2)
    ensures x1 == x2 && y1 == y2
  {
    var a, b := IntToDecimal(x1), IntToDecimal(y1);
    var c, d := IntToDecimal(x2), IntToDecimal(y2);
    CoordinatesInner(x1, y1);
    CoordinatesInner(x2, y2);
    SplitAtSlash(a, b, c, d);
    IntRoundTrip(x1, x2);
    IntRoundTrip(y1, y2);
  }

  /** Where the first `/` of a string is (its length when there is none). */
  function FirstSlash(s: string): (i: nat)
    ensures i <= |s|
    ensures i < |s| ==> s[i] == '/'
  {
    if |s| == 0 || s[0] == '/' then 0 else 1 + FirstSlash(s[1..])
  }

  /** Between the parentheses stand the two numbers and the slash. */
  lemma CoordinatesInner(x: int, y: int)
    ensures var s := Coordinates(x, y); s[1..|s| - 1] == IntToDecimal(x) + "/" + IntToDecimal(y)
  {
    var inner := IntToDecimal(x) + "/" + IntToDecimal(y);
    assert Coordinates(x, y) == "(" + inner + ")";
  }

  /** Two strings joined by a slash, the first without one, split back
      uniquely. */
  lemma SplitAtSlash(a: string, b: string, c: string, d: string)
    requires forall k :: 0 <= k < |a| ==> a[k] != '/'
    requires forall k :: 0 <= k < |c| ==> c[k] != '/'
    requires a + "/" + b == c + "/" + d
    ensures a == c && b == d
  {
    FirstSlashAfter(a, b);
    FirstSlashAfter(c, d);
    assert a == (a + "/" + b)[..|a|] == c;
    assert b == (a + "/" + b)[|a| + 1..] == d;
  }

  lemma {:induction false} FirstSlashAfter(a: string, b: string)
    requires forall k :: 0 <= k < |a| ==> a[k] != '/'
    ensures FirstSlash(a + "/" + b) == |a|
  {
    if |a| > 0 {
      assert (a + "/" + b)[1..] == a[1..] + "/" + b;
      FirstSlashAfter(a[1..], b);
    }
  }

  /** Different steps get different text, so `to_string` can be read back. */
  lemma DirectionToStringInjective(d: Direction, e: Direction)
    requires DirectionToString(d) == DirectionToString(e)
    ensures d == e
  {
    if !IsNamed(d) && !IsNamed(e) {
      CoordinatesInjective(d.x, d.y, e.x, e.y);
    }
  }

  /** Different positions get different text. */
  lemma PositionToStringInjective(p: Position, q: Position)
    requires PositionToString(p) == PositionToString(q)
    ensures p == q
  {
    CoordinatesInjective(p.x, p.y, q.x, q.y);
  }
}
