/** `snake_game_task`: the game's state (board, current direction, snake,
    fruits) and one pass of its endless loop. A pass reads the pad, applies
    the board's inversion, refuses a reversal, moves the snake, wraps or
    ends the game at the board's edges, bites off the tail when the head
    runs into the body, and lets the snake eat fruits. The controller state
    of the pass is a parameter; logging and the delay are not modelled. */
module SnakeGame {
  import opened CppArith
  import opened Geometry
  import opened SnakeDirections
  import opened GameInput
  import opened Snakes

  // ---------------------------------------------------------------------
  // Choosing the direction

  /** The pad in the tick loop: the first pressed button in the order up,
      down, left, right, up-right, up-left, down-left, down-right; the
      current direction when nothing is pressed or the controller is off. */
  function ReadPad(connected: bool, b: PadButtons, dir: Direction): (d: Direction)
    ensures !connected ==> d == dir
    ensures IsUnit(dir) ==> IsUnit(d)
  {
    if !connected then dir
    else if b.up then Up
    else if b.down then Down
    else if b.left then Left
    else if b.right then Right
    else if b.upRight then UpRight
    else if b.upLeft then UpLeft
    else if b.downLeft then DownLeft
    else if b.downRight then DownRight
    else dir
  }

  /** `invert_x_movement` / `invert_y_movement` negate that component. */
  function Invert(board: GameBoard, d: Direction): (r: Direction)
    ensures IsUnit(d) ==> IsUnit(r)
  {
    Direction(if board.invertX then -d.x else d.x, if board.invertY then -d.y else d.y)
  }

  /** The snake reads the pad with the priority of
      `get_direction_from_ps4_control_pad`, but with the steps of
      `Snake.h`, whose `y` axis points the other way: a pressed button gives
      the pad's step mirrored in `y`, and no input keeps the direction. */
  lemma ReadPadMirrorsControlPad(c: Controller, dir: Direction)
    ensures var p := ControlPadDirection(c);
            ReadPad(c.connected, c.buttons, dir) == if p == Zero then dir else Direction(p.x, -p.y)
  {
    PadPicksFirstPressed(c);
    var b, s := c.buttons, PadOrder(c.buttons);
    if !c.connected {
    } else if b.up {
      FirstPressedAt(s, 0);
    } else if b.down {
      FirstPressedAt(s, 1);
    } else if b.left {
      FirstPressedAt(s, 2);
    } else if b.right {
      FirstPressedAt(s, 3);
    } else if b.upRight {
      FirstPressedAt(s, 4);
    } else if b.upLeft {
      FirstPressedAt(s, 5);
    } else if b.downLeft {
      FirstPressedAt(s, 6);
    } else if b.downRight {
      FirstPressedAt(s, 7);
    } else {
      FirstPressedAt(s, 8);
    }
  }

  /** The direction of this pass: read, inverted, and replaced by the old
      one when it would reverse it. */
  function NextDirection(board: GameBoard, connected: bool, b: PadButtons, oldDir: Direction): (d: Direction)
    ensures oldDir != Zero ==> d.Plus(oldDir) != Zero
  {
    var d := Invert(board, ReadPad(connected, b, oldDir));
    if d.Plus(oldDir) == Zero then oldDir else d
  }

  predicate IsUnit(d: Direction)
  {
    -1 <= d.x <= 1 && -1 <= d.y <= 1
  }

  /** The direction never turns back on itself, and stays a step of at
      most one cell per axis. */
  lemma NextDirectionIsSafe(board: GameBoard, connected: bool, b: PadButtons, oldDir: Direction)
    requires IsUnit(oldDir)
    ensures IsUnit(NextDirection(board, connected, b, oldDir))
    ensures NextDirection(board, connected, b, oldDir) != oldDir.Opposite() || oldDir == Zero
  {
  }

  /** With only `x` inverted and no new input, a straight direction is
      kept (the inverted step would reverse it), while a diagonal one flips
      its horizontal part every pass. */
  lemma InvertedXWithoutInput(board: GameBoard, connected: bool, b: PadButtons, oldDir: Direction)
    requires board.invertX && !board.invertY
    requires ReadPad(connected, b, oldDir) == oldDir
    ensures oldDir.x == 0 || oldDir.y == 0 ==> NextDirection(board, connected, b, oldDir) == oldDir
    ensures oldDir.x != 0 && oldDir.y != 0 ==>
              NextDirection(board, connected, b, oldDir) == Direction(-oldDir.x, oldDir.y)
  {
  }

  /** `Right` pressed while moving up, with `x` inverted, turns left; the
      same button while moving left is refused and left is kept. */
  lemma InvertedXExamples(b: PadButtons)
    requires b.right && !b.up && !b.down && !b.left
    ensures NextDirection(GameBoard(30, 10, true, true, true, false), true, b, Up) == Left
    ensures NextDirection(GameBoard(30, 10, true, true, true, false), true, b, Left) == Left
  {
  }

  // ---------------------------------------------------------------------
  // The board's edges

  predicate OutOfRange(c: int, extent: int)
  {
    c < 0 || c >= extent
  }

  /** A coordinate on a looping axis: `(c + extent) % extent` when it has
      left the board, else unchanged. */
  function WrapAxis(c: int, extent: int): (r: int)
    requires extent > 0
    ensures !OutOfRange(c, extent) ==> r == c
  {
    if OutOfRange(c, extent) then Rem(c + extent, extent) else c
  }

  /** The head after the edge checks, and whether the game ended. */
  datatype Step = Step(head: Position, over: bool)

  /** The edge checks on a moved head: `x` first, then `y`. A non-looping
      axis out of range ends the game, with whatever `x` became. */
  function WrapHead(board: GameBoard, h: Position): (s: Step)
    requires board.width > 0 && board.height > 0
    ensures s.over <==>
      (OutOfRange(h.x, board.width) && !board.loopX) || (OutOfRange(h.y, board.height) && !board.loopY)
  {
    if OutOfRange(h.x, board.width) && !board.loopX then Step(h, true)
    else
      var x := WrapAxis(h.x, board.width);
      if OutOfRange(h.y, board.height) && !board.loopY then Step(Position(x, h.y), true)
      else Step(Position(x, WrapAxis(h.y, board.height)), false)
  }

  /** Wrapping keeps a coordinate within one turn of the board on the
      board, in the same class modulo the extent. */
  lemma WrapAxisReduces(c: int, extent: int)
    requires extent > 0 && -extent <= c < 2 * extent
    ensures 0 <= WrapAxis(c, extent) < extent
    ensures (WrapAxis(c, extent) - c) % extent == 0
    ensures !OutOfRange(c, extent) ==> WrapAxis(c, extent) == c
  {
    if c < 0 {
      ModUnique(c + extent, extent, 0, c + extent);
      ModUnique(extent, extent, 1, 0);
    } else if c >= extent {
      ModUnique(c + extent, extent, 2, c - extent);
      ModUnique(-extent, extent, -1, 0);
    } else {
      ModUnique(0, extent, 0, 0);
    }
  }

  /** The game ends exactly when a non-looping axis is left; otherwise the
      head ends up on the board (when it was at most one turn away). */
  lemma WrapHeadOutcome(board: GameBoard, h: Position)
    requires board.width > 0 && board.height > 0
    ensures WrapHead(board, h).over <==>
              (OutOfRange(h.x, board.width) && !board.loopX) ||
              (OutOfRange(h.y, board.height) && !board.loopY)
    ensures board.OnBoard(h) ==> WrapHead(board, h) == Step(h, false)
    ensures (-board.width <= h.x < 2 * board.width && -board.height <= h.y < 2 * board.height &&
             !WrapHead(board, h).over) ==> board.OnBoard(WrapHead(board, h).head)
  {
    if -board.width <= h.x < 2 * board.width && -board.height <= h.y < 2 * board.height {
      WrapAxisReduces(h.x, board.width);
      WrapAxisReduces(h.y, board.height);
    }
  }

  // ---------------------------------------------------------------------
  // Fruits

  /** `create_random_fruit`: always the board's centre. */
  function CreateRandomFruit(board: GameBoard, fruits: seq<Position>, body: seq<Position>): (p: Position)
    ensures board.width > 0 && board.height > 0 ==> board.OnBoard(p)
  {
    Position(Div(board.width, 2), Div(board.height, 2))
  }

  /** How many fruits lie on `p`. */
  function CountAt(fruits: seq<Position>, p: Position): (n: nat)
    ensures n <= |fruits|
  {
    if |fruits| == 0 then 0
    else CountAt(fruits[..|fruits| - 1], p) + (if fruits[|fruits| - 1] == p then 1 else 0)
  }

  /** Each fruit on `p` replaced by `newFruit`. */
  function Refill(fruits: seq<Position>, p: Position, newFruit: Position): (r: seq<Position>)
    ensures |r| == |fruits|
    ensures forall k :: 0 <= k < |r| ==> r[k] == (if fruits[k] == p then newFruit else fruits[k])
  {
    seq(|fruits|, k requires 0 <= k < |fruits| => if fruits[k] == p then newFruit else fruits[k])
  }

  /** The body after eating every fruit on the head: one copy of the tail
      per fruit. */
  function Fed(body: seq<Position>, fruits: seq<Position>): seq<Position>
    requires 0 < |body|
  {
    body + seq(CountAt(fruits, body[0]), _ => body[|body| - 1])
  }

  /** A fruit is counted exactly when one lies on the cell. */
  lemma {:induction false} CountAtZero(fruits: seq<Position>, p: Position)
    ensures CountAt(fruits, p) == 0 <==> p !in fruits
  {
    if |fruits| > 0 {
      var init := fruits[..|fruits| - 1];
      CountAtZero(init, p);
      assert fruits == init + [fruits[|fruits| - 1]];
    }
  }

  /** One more fruit examined: counted when on `p`, replaced when on `p`. */
  lemma FruitStep(fruits: seq<Position>, i: nat, p: Position, newFruit: Position)
    requires i < |fruits|
    ensures CountAt(fruits[..i + 1], p) == CountAt(fruits[..i], p) + (if fruits[i] == p then 1 else 0)
    ensures Refill(fruits[..i + 1], p, newFruit) + fruits[i + 1..]
         == (Refill(fruits[..i], p, newFruit) + fruits[i..])[i := if fruits[i] == p then newFruit else fruits[i]]
  {
    assert fruits[..i + 1][..i] == fruits[..i];
  }

  lemma GrowStep(body: seq<Position>, k: nat, t: Position)
    ensures body + seq(k, _ => t) + [t] == body + seq(k + 1, _ => t)
  {
  }

  /** One pass of the fruit loop on values: `body` and `fruits` are the
      state after the first `i` fruits; the head and the `i`-th fruit are
      the original ones, and eating (or not) gives the state after `i + 1`. */
  lemma EatStep(body0: seq<Position>, fruits0: seq<Position>, i: nat, newFruit: Position,
                body: seq<Position>, fruits: seq<Position>)
    requires 0 < |body0| && i < |fruits0|
    requires body == body0 + seq(CountAt(fruits0[..i], body0[0]), _ => body0[|body0| - 1])
    requires fruits == Refill(fruits0[..i], body0[0], newFruit) + fruits0[i..]
    ensures 0 < |body| && body[0] == body0[0] && i < |fruits| && fruits[i] == fruits0[i]
    ensures fruits0[i] == body0[0] ==>
              body + [body[|body| - 1]] == body0 + seq(CountAt(fruits0[..i + 1], body0[0]), _ => body0[|body0| - 1]) &&
              fruits[i := newFruit] == Refill(fruits0[..i + 1], body0[0], newFruit) + fruits0[i + 1..]
    ensures fruits0[i] != body0[0] ==>
              body == body0 + seq(CountAt(fruits0[..i + 1], body0[0]), _ => body0[|body0| - 1]) &&
              fruits == Refill(fruits0[..i + 1], body0[0], newFruit) + fruits0[i + 1..]
  {
    var tail := body0[|body0| - 1];
    var count := CountAt(fruits0[..i], body0[0]);
    FruitStep(fruits0, i, body0[0], newFruit);
    assert fruits[i] == fruits0[i..][0];
    assert body[|body| - 1] == tail;
    GrowStep(body0, count, tail);
  }

  // ---------------------------------------------------------------------
  // A whole pass

  datatype Outcome = Outcome(body: seq<Position>, dir: Direction, fruits: seq<Position>, over: bool)

  /** The body after `move(head + d)`. */
  function Moved(body: seq<Position>, d: Direction): (r: seq<Position>)
    requires 0 < |body|
  {
    [body[0].Plus(d)] + body[..|body| - 1]
  }

  /** The body after the move and the edge checks, and whether the game ended. */
  function MoveAndWrapSpec(board: GameBoard, body: seq<Position>, d: Direction): (seq<Position>, bool)
    requires 0 < |body| && board.width > 0 && board.height > 0
  {
    var moved := Moved(body, d);
    var step := WrapHead(board, moved[0]);
    (moved[0 := step.head], step.over)
  }

  /** The bite and the fruits, on a body that stayed in play. */
  function BiteAndEatSpec(board: GameBoard, placed: seq<Position>, fruits: seq<Position>): (seq<Position>, seq<Position>)
    requires 0 < |placed|
  {
    var bitten := placed[..FirstBite(placed)];
    (Fed(bitten, fruits), Refill(fruits, bitten[0], CreateRandomFruit(board, fruits, bitten)))
  }

  /** One pass of the loop on values. */
  function TickSpec(board: GameBoard, connected: bool, b: PadButtons, dir: Direction,
                    body: seq<Position>, fruits: seq<Position>): Outcome
    requires 0 < |body| && board.width > 0 && board.height > 0
  {
    var d := NextDirection(board, connected, b, dir);
    var (placed, over) := MoveAndWrapSpec(board, body, d);
    if over then Outcome(placed, d, fruits, true)
    else
      var (fed, refilled) := BiteAndEatSpec(board, placed, fruits);
      Outcome(fed, d, refilled, false)
  }

  predicate AllOnBoard(board: GameBoard, body: seq<Position>)
  {
    forall k :: 0 <= k < |body| ==> board.OnBoard(body[k])
  }

  /** A snake that is on the board and moves by unit steps stays on the
      board for as long as the game goes on, and keeps moving by unit steps. */
  lemma TickKeepsSnakeOnBoard(board: GameBoard, connected: bool, b: PadButtons, dir: Direction,
                              body: seq<Position>, fruits: seq<Position>)
    requires 0 < |body| && board.width > 0 && board.height > 0
    requires AllOnBoard(board, body) && IsUnit(dir)
    ensures var r := TickSpec(board, connected, b, dir, body, fruits);
            IsUnit(r.dir) && 0 < |r.body| && (!r.over ==> AllOnBoard(board, r.body))
  {
    var d := NextDirection(board, connected, b, dir);
    NextDirectionIsSafe(board, connected, b, dir);
    MoveAndWrapOnBoard(board, body, d);
    var (placed, over) := MoveAndWrapSpec(board, body, d);
    if !over {
      BiteAndEatOnBoard(board, placed, fruits);
    }
  }

  /** A unit step from a cell of the board that does not end the game lands
      on the board. */
  lemma StepLandsOnBoard(board: GameBoard, p: Position, d: Direction)
    requires board.width > 0 && board.height > 0
    requires board.OnBoard(p) && IsUnit(d)
    ensures !WrapHead(board, p.Plus(d)).over ==> board.OnBoard(WrapHead(board, p.Plus(d)).head)
  {
    WrapHeadOutcome(board, p.Plus(d));
  }

  /** A unit step that does not end the game leaves the moved body on the board. */
  lemma MoveAndWrapOnBoard(board: GameBoard, body: seq<Position>, d: Direction)
    requires 0 < |body| && board.width > 0 && board.height > 0
    requires AllOnBoard(board, body) && IsUnit(d)
    ensures |MoveAndWrapSpec(board, body, d).0| == |body|
    ensures !MoveAndWrapSpec(board, body, d).1 ==> AllOnBoard(board, MoveAndWrapSpec(board, body, d).0)
  {
    var step := WrapHead(board, body[0].Plus(d));
    StepLandsOnBoard(board, body[0], d);
    var placed := MoveAndWrapSpec(board, body, d).0;
    assert placed[0] == step.head;
    assert forall k :: 0 < k < |placed| ==> placed[k] == body[k - 1];
    if !step.over {
      assert board.OnBoard(placed[0]);
      forall k | 0 <= k < |placed|
        ensures board.OnBoard(placed[k])
      {
        if k > 0 {
          assert placed[k] == body[k - 1];
        }
      }
    }
  }

  /** Biting and eating keep a body that is on the board on the board. */
  lemma BiteAndEatOnBoard(board: GameBoard, placed: seq<Position>, fruits: seq<Position>)
    requires 0 < |placed| && AllOnBoard(board, placed)
    ensures 0 < |BiteAndEatSpec(board, placed, fruits).0|
    ensures AllOnBoard(board, BiteAndEatSpec(board, placed, fruits).0)
  {
    var bitten := placed[..FirstBite(placed)];
    assert AllOnBoard(board, bitten);
    FedOnBoard(board, bitten, fruits);
  }

  /** Eating copies the tail, so it keeps a snake on the board. */
  lemma FedOnBoard(board: GameBoard, body: seq<Position>, fruits: seq<Position>)
    requires 0 < |body| && AllOnBoard(board, body)
    ensures AllOnBoard(board, Fed(body, fruits))
  {
    var r := Fed(body, fruits);
    forall k | 0 <= k < |r|
      ensures board.OnBoard(r[k])
    {
      if k >= |body| {
        assert r[k] == body[|body| - 1];
      }
    }
  }

  /** The game ends on a pass exactly when the moved head leaves a
      non-looping axis; then no bite or fruit is processed and the length
      is kept. Otherwise the fruits on the head are replaced by the centre
      and the snake grows by one per fruit after any bite. */
  lemma TickOutcome(board: GameBoard, connected: bool, b: PadButtons, dir: Direction,
                    body: seq<Position>, fruits: seq<Position>)
    requires 0 < |body| && board.width > 0 && board.height > 0
    ensures var r := TickSpec(board, connected, b, dir, body, fruits);
            var h := body[0].Plus(r.dir);
            (r.over <==> (OutOfRange(h.x, board.width) && !board.loopX) ||
                         (OutOfRange(h.y, board.height) && !board.loopY)) &&
            (r.over ==> r.fruits == fruits && |r.body| == |body|) &&
            (!r.over ==> r.body[0] == WrapHead(board, h).head &&
                         |r.body| <= |body| + CountAt(fruits, r.body[0]) &&
                         (r.body[0] !in fruits ==> r.fruits == fruits))
  {
    var r := TickSpec(board, connected, b, dir, body, fruits);
    var h := body[0].Plus(r.dir);
    WrapHeadOutcome(board, h);
    if !r.over {
      CountAtZero(fruits, r.body[0]);
      if r.body[0] !in fruits {
        assert r.fruits == fruits;
      }
    }
  }

  /** The loop's initial state is on the board and moves by a unit step. */
  lemma InitialStateOnBoard()
    ensures AllOnBoard(GameBoard(30, 10, true, true, true, false), seq(5, _ => Position(15, 5)))
    ensures IsUnit(Direction(1, 0))
  {
  }

  // ---------------------------------------------------------------------
  // The state of `snake_game_task`, updated in place

  class SnakeGameTask {
    const board: GameBoard
    var dir: Direction
    const snake: Snake
    /** The `std::vector<Fruit>`, by position. */
    const fruits: array<Position>

    predicate Valid()
      reads this, snake, snake.body
    {
      snake.Valid() && 0 < |snake.Body()| && board.width > 0 && board.height > 0
    }

    /** The state before the first pass: a 30 by 10 board looping on both
        axes with `x` inverted, a snake of five segments in the centre
        moving right, no fruits. */
    constructor ()
      ensures Valid() && fresh(snake) && fresh(snake.body) && fresh(fruits)
      ensures board == GameBoard(30, 10, true, true, true, false)
      ensures dir == Direction(1, 0) && fruits.Length == 0
      ensures snake.Body() == seq(5, _ => Position(15, 5))
    {
      var b := GameBoard(30, 10, true, true, true, false);
      board := b;
      dir := Direction(1, 0);
      snake := new Snake(Position(Div(b.width, 2), Div(b.height, 2)), 5);
      fruits := new Position[0];
    }

    /** Reading the pad, inverting and refusing a reversal. */
    method Steer(connected: bool, b: PadButtons)
      modifies this
      ensures dir == NextDirection(board, connected, b, old(dir))
    {
      var oldDir := dir;
      if connected {
        if b.up {
          dir := Up;
        } else if b.down {
          dir := Down;
        } else if b.left {
          dir := Left;
        } else if b.right {
          dir := Right;
        } else if b.upRight {
          dir := UpRight;
        } else if b.upLeft {
          dir := UpLeft;
        } else if b.downLeft {
          dir := DownLeft;
        } else if b.downRight {
          dir := DownRight;
        }
      }
      if board.invertX {
        dir := dir.(x := -dir.x);
      }
      if board.invertY {
        dir := dir.(y := -dir.y);
      }
      if dir.Plus(oldDir) == Zero {
        dir := oldDir;
      }
    }

    /** The edge checks on the head, written through `head()`. */
    method WrapSnakeHead() returns (over: bool)
      modifies snake.body
      requires Valid()
      ensures Valid()
      ensures var step := WrapHead(board, old(snake.Body())[0]);
              snake.Body() == old(snake.Body())[0 := step.head] && over == step.over
    {
      var h := snake.Head();
      if OutOfRange(h.x, board.width) {
        if board.loopX {
          snake.SetHead(h.(x := Rem(h.x + board.width, board.width)));
        } else {
          return true;
        }
      }
      h := snake.Head();
      if OutOfRange(h.y, board.height) {
        if board.loopY {
          snake.SetHead(h.(y := Rem(h.y + board.height, board.height)));
        } else {
          return true;
        }
      }
      over := false;
    }

    /** The fruit loop: every fruit on the head makes the snake eat and
        is replaced by a new one. */
    method EatFruits()
      modifies snake.body, fruits
      requires Valid()
      ensures Valid()
      ensures snake.Body() == Fed(old(snake.Body()), old(fruits[..]))
      ensures fruits[..] == Refill(old(fruits[..]), old(snake.Body())[0],
                                   CreateRandomFruit(board, old(fruits[..]), old(snake.Body())))
    {
      ghost var body0 := snake.Body();
      ghost var fruits0 := fruits[..];
      ghost var newFruit := CreateRandomFruit(board, fruits0, body0);
      var i := 0;
      while i < fruits.Length
        invariant 0 <= i <= fruits.Length == |fruits0|
        invariant Valid()
        invariant snake.Body() == body0 + seq(CountAt(fruits0[..i], body0[0]), _ => body0[|body0| - 1])
        invariant fruits[..] == Refill(fruits0[..i], body0[0], newFruit) + fruits0[i..]
      {
        EatIfOnHead(i, body0, fruits0, newFruit);
        i := i + 1;
      }
      assert fruits0[..i] == fruits0;
    }

    /** One pass of the fruit loop: the state after the first `i` fruits
        becomes the state after the first `i + 1`. */
    method EatIfOnHead(i: nat, ghost body0: seq<Position>, ghost fruits0: seq<Position>, ghost newFruit: Position)
      modifies snake.body, fruits
      requires Valid() && 0 < |body0| && i < fruits.Length == |fruits0|
      requires snake.Body() == body0 + seq(CountAt(fruits0[..i], body0[0]), _ => body0[|body0| - 1])
      requires fruits[..] == Refill(fruits0[..i], body0[0], newFruit) + fruits0[i..]
      requires newFruit == CreateRandomFruit(board, fruits0, body0)
      ensures Valid()
      ensures snake.Body() == body0 + seq(CountAt(fruits0[..i + 1], body0[0]), _ => body0[|body0| - 1])
      ensures fruits[..] == Refill(fruits0[..i + 1], body0[0], newFruit) + fruits0[i + 1..]
    {
      EatStep(body0, fruits0, i, newFruit, snake.Body(), fruits[..]);
      if snake.Head() == fruits[i] {
        EatAt(i);
      }
    }

    /** The loop body for a fruit on the head: eat it and put a new one
        in its place. */
    method EatAt(i: nat)
      modifies snake.body, fruits
      requires Valid() && i < fruits.Length
      ensures Valid()
      ensures snake.Body() == old(snake.Body()) + [old(snake.Body())[|old(snake.Body())| - 1]]
      ensures fruits[..] == old(fruits[..])[i := CreateRandomFruit(board, old(fruits[..]), old(snake.Body()))]
    {
      snake.Eat(fruits[i]);
      fruits[i] := CreateRandomFruit(board, fruits[..], snake.Body());
    }

    /** `move(head() + dir)` followed by the edge checks. */
    method MoveAndWrap() returns (over: bool)
      modifies snake.body
      requires Valid()
      ensures Valid()
      ensures (snake.Body(), over) == MoveAndWrapSpec(board, old(snake.Body()), dir)
    {
      ghost var moved := Moved(snake.Body(), dir);
      snake.Move(snake.Head().Plus(dir));
      assert snake.Body() == moved;
      over := WrapSnakeHead();
    }

    /** `is_biting_itself` with `bite_off_tail` on a hit, then the fruits. */
    method BiteAndEat()
      modifies snake.body, fruits
      requires Valid()
      ensures Valid()
      ensures (snake.Body(), fruits[..]) == BiteAndEatSpec(board, old(snake.Body()), old(fruits[..]))
    {
      ghost var placed := snake.Body();
      var hit, mark := snake.IsBitingItself();
      if hit {
        var _ := snake.BiteOffTail(mark);
      } else {
        assert placed[..mark] == placed;
      }
      EatFruits();
    }

    /** One pass of the loop; `over` is the `break` out of it. */
    method Tick(connected: bool, b: PadButtons) returns (over: bool)
      modifies this, snake.body, fruits
      requires Valid()
      ensures Valid()
      ensures var r := TickSpec(board, connected, b, old(dir), old(snake.Body()), old(fruits[..]));
              dir == r.dir && snake.Body() == r.body && fruits[..] == r.fruits && over == r.over
    {
      Steer(connected, b);
      over := MoveAndWrap();
      if !over {
        BiteAndEat();
      }
    }
  }
}
