/** Reading a direction from a PlayStation 4 controller: the digital pad,
    an analog stick, and their sum. The controller's state is a parameter
    (the connection flag, the eight pad buttons and the four stick axes);
    the `Serial` log lines are not modelled. */
module GameInput {
  import opened CppArith
  import opened Geometry
  import opened GameDirections

  /** A stick axis as the controller library reports it (a signed byte). */
  type StickAxis = v: int | -128 <= v <= 127

  /** The magnitude threshold is an unsigned 32-bit number. */
  type Uint32 = n: nat | n < 0x1_0000_0000

  datatype PadButtons = PadButtons(up: bool, down: bool, left: bool, right: bool,
                                   upRight: bool, upLeft: bool, downLeft: bool, downRight: bool)

  datatype Controller = Controller(connected: bool, buttons: PadButtons,
                                   lx: StickAxis, ly: StickAxis, rx: StickAxis, ry: StickAxis)

  // ---------------------------------------------------------------------
  // Control pad

  /** The buttons in the order the pad examines them, and their steps. */
  function PadOrder(b: PadButtons): (s: seq<bool>)
    ensures |s| == 8
  {
    [b.up, b.down, b.left, b.right, b.upRight, b.upLeft, b.downLeft, b.downRight]
  }

  const PadSteps: seq<Direction> := [Up, Down, Left, Right, UpRight, UpLeft, DownLeft, DownRight]

  /** The step of the first pressed button of a list, or `None`: one
      `else if` per button. */
  function FirstStep(pressed: seq<bool>, steps: seq<Direction>): (d: Direction)
    requires |pressed| == |steps|
    ensures d == None || d in steps
  {
    if |pressed| == 0 then None
    else if pressed[0] then steps[0]
    else FirstStep(pressed[1..], steps[1..])
  }

  /** `get_direction_from_ps4_control_pad`: the first pressed button in
      the order up, down, left, right, up-right, up-left, down-left,
      down-right; `None` when the controller is off or nothing is pressed. */
  function ControlPadDirection(c: Controller): (d: Direction)
    ensures -1 <= d.x <= 1 && -1 <= d.y <= 1
  {
    if c.connected then FirstStep(PadOrder(c.buttons), PadSteps) else None
  }

  /** The index of the first `true` in `s`, or `|s|` when there is none. */
  function FirstPressed(s: seq<bool>): (i: nat)
    ensures i <= |s|
    ensures i < |s| ==> s[i]
    ensures forall k :: 0 <= k < i ==> !s[k]
  {
    if |s| == 0 || s[0] then 0 else 1 + FirstPressed(s[1..])
  }

  /** The first pressed index is the one pressed after none. */
  lemma FirstPressedAt(s: seq<bool>, j: nat)
    requires j <= |s| && (j < |s| ==> s[j]) && forall k :: 0 <= k < j ==> !s[k]
    ensures FirstPressed(s) == j
  {
  }

  /** `FirstStep` picks the step at the first pressed index. */
  lemma {:induction false} FirstStepIsFirstPressed(pressed: seq<bool>, steps: seq<Direction>)
    requires |pressed| == |steps|
    ensures var i := FirstPressed(pressed);
            FirstStep(pressed, steps) == if i < |pressed| then steps[i] else None
  {
    if |pressed| > 0 && !pressed[0] {
      FirstStepIsFirstPressed(pressed[1..], steps[1..]);
    }
  }

  /** The pad yields the step of the first pressed button, and `None`
      exactly when the controller is off or no button is pressed. */
  lemma PadPicksFirstPressed(c: Controller)
    ensures var i := FirstPressed(PadOrder(c.buttons));
            ControlPadDirection(c) == if c.connected && i < 8 then PadSteps[i] else None
    ensures ControlPadDirection(c) == None <==> !c.connected || !(true in PadOrder(c.buttons))
  {
    var s := PadOrder(c.buttons);
    FirstStepIsFirstPressed(s, PadSteps);
    var i := FirstPressed(s);
    if c.connected && i < 8 {
      assert s[i];
    } else if c.connected {
      assert !(true in s);
    }
  }

  /** Pressing `up` wins over everything; `down-right` counts only when
      nothing else is pressed. */
  lemma PadPriorityExamples(c: Controller)
    requires c.connected
    ensures c.buttons.up ==> ControlPadDirection(c) == Up
    ensures PadOrder(c.buttons) == [false, false, false, false, false, false, false, true] ==>
              ControlPadDirection(c) == DownRight
  {
    PadPicksFirstPressed(c);
    var s := PadOrder(c.buttons);
    if s == [false, false, false, false, false, false, false, true] {
      assert FirstPressed(s) == 7 by {
        assert forall k :: 0 <= k < 7 ==> !s[k];
      }
    }
  }

  // ---------------------------------------------------------------------
  // Analog stick

  /** `comp(v)`, evaluated without overflow: `v` scaled by
      16777216/40503782 (about tan 22.5 degrees), truncated toward zero. */
  function Comp(v: int): (r: int)
    ensures 0 <= v ==> 0 <= r
  {
    Div(v * 16777216, 40503782)
  }

  /** A signed 32-bit result of an operation whose exact value is `v`. */
  function Wrap32(v: int): (r: int)
    ensures -0x8000_0000 <= r < 0x8000_0000
    ensures -0x8000_0000 <= v < 0x8000_0000 ==> r == v
  {
    (v + 0x8000_0000) % 0x1_0000_0000 - 0x8000_0000
  }

  /** `comp(v)` as the macro computes it where `long` has 32 bits: the
      product wraps before it is divided. */
  function CompAsWritten(v: int): (r: int)
    ensures -128 <= v <= 127 ==> r == Comp(v)
  {
    Div(Wrap32(v * 16777216), 40503782)
  }

  /** The decision chain of the stick, given the scaling function. */
  function ClassifyStick(x: int, y: int, comp: int -> int): (d: Direction)
    ensures IsNamed(d)
  {
    if y > 0 && Abs(x) <= comp(y) then Up
    else if y < 0 && Abs(x) <= comp(-y) then Down
    else if x < 0 && Abs(y) <= comp(-x) then Left
    else if x > 0 && Abs(y) <= comp(x) then Right
    else if y > comp(x) && x > comp(y) then UpRight
    else if y > comp(-x) && -x > comp(y) then UpLeft
    else if y < comp(x) && x < comp(y) then DownLeft
    else if x > comp(-y) && -y > comp(x) then DownRight
    else None
  }

  function StickX(c: Controller, leftStick: bool): StickAxis
  {
    if leftStick then c.lx else c.rx
  }

  function StickY(c: Controller, leftStick: bool): StickAxis
  {
    if leftStick then c.ly else c.ry
  }

  /** The dead zone test: `threshold * threshold` is an unsigned 32-bit
      product compared with the squared magnitude. */
  predicate InDeadZone(x: int, y: int, threshold: Uint32)
    ensures threshold < 0x1_0000 ==>
      (InDeadZone(x, y, threshold) <==> x * x + y * y < threshold * threshold)
  {
    assert threshold < 0x1_0000 ==> threshold * threshold < 0x1_0000_0000 by {
      if threshold < 0x1_0000 {
        MulBelow(threshold, 0x1_0000);
      }
    }
    (threshold * threshold) % 0x1_0000_0000 > x * x + y * y
  }

  /** `get_direction_from_ps4_analog_stick` with `comp` evaluated exactly. */
  function StickDirection(c: Controller, leftStick: bool, threshold: Uint32): (d: Direction)
    ensures IsNamed(d)
  {
    var x, y := StickX(c, leftStick), StickY(c, leftStick);
    if !c.connected || InDeadZone(x, y, threshold) then None
    else ClassifyStick(x, y, Comp)
  }

  /** `get_direction_from_ps4_analog_stick` with the 32-bit `comp`. */
  function StickDirectionAsWritten(c: Controller, leftStick: bool, threshold: Uint32): (d: Direction)
    ensures IsNamed(d)
  {
    var x, y := StickX(c, leftStick), StickY(c, leftStick);
    if !c.connected || InDeadZone(x, y, threshold) then None
    else ClassifyStick(x, y, CompAsWritten)
  }

  /** `comp` is odd and, for non-negative arguments, lies between 0 and
      half its argument. */
  lemma CompBounds(v: int)
    ensures Comp(-v) == -Comp(v)
    ensures v >= 0 ==> 0 <= Comp(v) && 2 * Comp(v) <= v
  {
    assert (-v) * 16777216 == -(v * 16777216);
    DivNegate(v * 16777216, 40503782);
    if v >= 0 {
      var q := (v * 16777216) / 40503782;
      assert q * 40503782 <= v * 16777216;
    }
  }

  lemma CompBoundsAt(x: int, y: int)
    ensures Comp(-x) == -Comp(x) && Comp(-y) == -Comp(y)
    ensures x >= 0 ==> 0 <= Comp(x) && 2 * Comp(x) <= x
    ensures y >= 0 ==> 0 <= Comp(y) && 2 * Comp(y) <= y
    ensures x < 0 ==> 0 <= Comp(-x) && 2 * Comp(-x) <= -x
    ensures y < 0 ==> 0 <= Comp(-y) && 2 * Comp(-y) <= -y
  {
    CompBounds(x);
    CompBounds(y);
    CompBounds(-x);
    CompBounds(-y);
  }

  /** Outside the dead zone every deflection gives a step: the stick is
      `None` there only when it is centred. */
  lemma StickCoversAllDeflections(x: int, y: int)
    ensures ClassifyStick(x, y, Comp) == None <==> x == 0 && y == 0
  {
    CompBoundsAt(x, y);
  }

  /** The step points the way the stick is pushed: its `x` is 0 or the
      sign of `x`, and its `y` is 0 or the opposite of the sign of `y`
      (the stick reports up as positive, the board counts rows downwards). */
  lemma StickAgreesWithDeflection(x: int, y: int)
    ensures var d := ClassifyStick(x, y, Comp);
            (d.x == 0 || d.x == Sign(x)) && (d.y == 0 || d.y == -Sign(y))
  {
    CompBoundsAt(x, y);
  }

  /** A straight step needs its axis to dominate the other at least two
      to one; so the four straight sectors do not overlap. */
  lemma StraightStepsNeedDominantAxis(x: int, y: int)
    ensures ClassifyStick(x, y, Comp) == Up ==> y > 0 && 2 * Abs(x) <= y
    ensures ClassifyStick(x, y, Comp) == Down ==> y < 0 && 2 * Abs(x) <= -y
    ensures ClassifyStick(x, y, Comp) == Left ==> x < 0 && 2 * Abs(y) <= -x
    ensures ClassifyStick(x, y, Comp) == Right ==> x > 0 && 2 * Abs(y) <= x
  {
    CompBoundsAt(x, y);
  }

  /** A connected stick is `None` inside the dead zone (when the squared
      threshold does not wrap) and otherwise classified. */
  lemma StickDeadZone(c: Controller, leftStick: bool, threshold: Uint32)
    requires threshold < 0x1_0000
    ensures var x, y := StickX(c, leftStick), StickY(c, leftStick);
            var d := StickDirection(c, leftStick, threshold);
            (c.connected && x * x + y * y < threshold * threshold ==> d == None) &&
            (c.connected && x * x + y * y >= threshold * threshold ==>
               (d == None <==> x == 0 && y == 0))
  {
    var x, y := StickX(c, leftStick), StickY(c, leftStick);
    assert threshold * threshold < 0x1_0000_0000 by {
      MulBelow(threshold, 0x1_0000);
    }
    StickCoversAllDeflections(x, y);
  }

  lemma MulBelow(a: nat, n: nat)
    requires a < n
    ensures a * a < n * n
  {
    assert a * a <= a * n;
  }

  /** With the 32-bit `comp`, pushing the stick fully down or fully left
      gives a diagonal, because `comp(128)` wraps to a negative number. */
  lemma FullDeflectionAsWritten()
    ensures CompAsWritten(128) == -53 && Comp(128) == 53
    ensures ClassifyStick(0, -128, CompAsWritten) == DownRight
    ensures ClassifyStick(-128, 0, CompAsWritten) == UpLeft
    ensures ClassifyStick(0, -128, Comp) == Down
    ensures ClassifyStick(-128, 0, Comp) == Left
  {
    assert CompAsWritten(0) == 0 && Comp(0) == 0;
    assert Wrap32(-128 * 16777216) == -128 * 16777216;
    assert CompAsWritten(-128) == -53;
  }

  /** The two versions of `comp` differ only at 128, which the chain asks
      for only when an axis reads -128: elsewhere the stick as written and
      the corrected stick agree. */
  lemma StickAsWrittenAgrees(c: Controller, leftStick: bool, threshold: Uint32)
    ensures StickX(c, leftStick) != -128 && StickY(c, leftStick) != -128 ==>
              StickDirectionAsWritten(c, leftStick, threshold) == StickDirection(c, leftStick, threshold)
  {
    var x, y := StickX(c, leftStick), StickY(c, leftStick);
    if x != -128 && y != -128 {
      assert CompAsWritten(x) == Comp(x) && CompAsWritten(-x) == Comp(-x);
      assert CompAsWritten(y) == Comp(y) && CompAsWritten(-y) == Comp(-y);
      ClassifySameComp(x, y, CompAsWritten, Comp);
    }
  }

  /** The sector chain reads `comp` only at `x`, `-x`, `y` and `-y`. */
  lemma ClassifySameComp(x: int, y: int, f: int -> int, g: int -> int)
    requires f(x) == g(x) && f(-x) == g(-x) && f(y) == g(y) && f(-y) == g(-y)
    ensures ClassifyStick(x, y, f) == ClassifyStick(x, y, g)
  {
  }

  // ---------------------------------------------------------------------
  // Both together

  /** `get_direction_from_ps4`: the pad step plus the left stick's step
      with threshold 100, not normalized, with the 32-bit `comp`. */
  function Ps4Direction(c: Controller): (d: Direction)
    ensures -2 <= d.x <= 2 && -2 <= d.y <= 2
  {
    ControlPadDirection(c).Plus(StickDirectionAsWritten(c, true, 100))
  }

  /** `get_direction_from_ps4` on the corrected stick. */
  function Ps4DirectionCorrected(c: Controller): (d: Direction)
    ensures -2 <= d.x <= 2 && -2 <= d.y <= 2
  {
    ControlPadDirection(c).Plus(StickDirection(c, true, 100))
  }

  /** The two agree unless a left stick axis reads -128; there, with no
      button pressed, fully down reads `DownRight` as written. */
  lemma Ps4AsWrittenDiffersOnlyAtFullDeflection(c: Controller)
    ensures c.lx != -128 && c.ly != -128 ==> Ps4Direction(c) == Ps4DirectionCorrected(c)
    ensures c.connected && !(true in PadOrder(c.buttons)) && c.lx == 0 && c.ly == -128 ==>
              Ps4Direction(c) == DownRight && Ps4DirectionCorrected(c) == Down
  {
    StickAsWrittenAgrees(c, true, 100);
    if c.connected && !(true in PadOrder(c.buttons)) && c.lx == 0 && c.ly == -128 {
      PadPicksFirstPressed(c);
      assert !InDeadZone(0, -128, 100);
      FullDeflectionAsWritten();
    }
  }

  /** Inside the left stick's dead zone the pad alone decides. */
  lemma Ps4InsideDeadZone(c: Controller)
    requires c.lx * c.lx + c.ly * c.ly < 10000
    ensures Ps4Direction(c) == ControlPadDirection(c)
  {
    assert StickDirectionAsWritten(c, true, 100) == None by {
      assert (100 * 100) % 0x1_0000_0000 == 10000;
      assert InDeadZone(StickX(c, true), StickY(c, true), 100);
    }
  }

  /** With no button pressed the left stick alone decides. */
  lemma Ps4WithoutButtons(c: Controller)
    requires !(true in PadOrder(c.buttons))
    ensures Ps4Direction(c) == StickDirectionAsWritten(c, true, 100)
  {
    PadPicksFirstPressed(c);
  }
}
