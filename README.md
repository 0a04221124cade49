# Snake on a WS2812b LED matrix — a Dafny model

The program is a game of Snake. It runs on an ESP32 and draws on a matrix of
WS2812b LEDs. Its core is made of four parts:

- **`Ringbuffer<T>`**: a double-ended buffer. A vector and a *front index*
  store the elements. Logical index `i` lives at vector index
  `(i + front) % size`. Pushing, inserting and erasing move the front index
  as needed. The buffer's iterators are a buffer plus a logical index.
- **The snake's geometry**: `Direction` and `Position` (integer pairs with
  their operators), the `GameBoard` (size, looping and inversion flags) and
  the `Snake`. The snake is a ring buffer of positions: the head is the
  front and the tail is the back. It moves, grows, eats and bites off its
  own tail.
- **The game loop** (`snake_game_task`): on each pass it reads the
  controller, applies the board's inversion and refuses a reversal. It then
  moves the snake and wraps it at a looping edge; at a non-looping edge the
  game ends. Last it bites off the tail if the head hits the body, and eats
  the fruits on the head. The controller decoding comes in three parts:
  the control pad, the analog stick with its dead zone and 8 sectors, and
  the two together.
- **`LedMatrix`**: a window onto a grid of LEDs wired as one strip. Four
  wiring patterns times four start corners map a grid cell to its place on
  the strip. A window has an offset, a size and optional reversed rows and
  columns.

Each C++ class whose fields change in place is a Dafny `class`:
`Ringbuffers.Ringbuffer`, `Ringbuffers.Iterator`, `Snakes.Snake` and
`SnakeGame.SnakeGameTask`. The local variables of `snake_game_task` become that class's
fields.

- **Ring buffer.** The buffer's methods are proved against the value-level
  ring state `RingIndex.Ring(vec, front)`. What each method does to the
  sequence of elements, `Contents()`, is proved in `RingIndex`.
- **Value types.** `Direction`, `Position`, `GameBoard` and `LedMatrix` are
  datatypes. `Geometry` holds the arithmetic shared by the two copies of the
  vector types (lib/Snake/Snake.h and lib/Game/Game.h). Where they differ it
  is modelled separately: `SnakeDirections` has the y-up constants and the
  first `normalize()`, and `GameDirections` has the y-down constants and
  `to_string()`.
- **Integer arithmetic.** C++ `/` and `%` truncate toward zero, so they are
  modelled explicitly (`CppArith.Div`, `CppArith.Rem`). Integers are
  otherwise unbounded. Where 32-bit wrap-around changes the outcome, it is
  written out: see the `comp` finding.

## Model

| member | source | states |
|---|---|---|
| CppArith.Div | lib/Snake/Snake.cpp:15 | C++ `/`: agrees with Euclidean division on non-negative operands (see `DivNegate` for negative ones) |
| CppArith.Rem | lib/Snake/Snake.cpp:85 | C++ `%`: `|r| < |b|`, a non-zero remainder has the dividend's sign, and it agrees with Euclidean `%` on non-negative operands |
| CppArith.DivRemIdentity | include/Ringbuffer.h:64-71 | `Div(a,b) * b + Rem(a,b) == a` for every `a` and non-zero `b` |
| CppArith.DivNegate | lib/Game/Game.cpp:82 | truncating division is odd: `Div(-a,b) == -Div(a,b)` |
| RingIndex.RingIdxToVecIdx | include/Ringbuffer.h:64-71 | 0 on an empty buffer; otherwise a vector index in `[0,size)` whenever `front + index + size` is non-negative |
| RingIndex.RingIdxIsMod | include/Ringbuffer.h:64-71 | for a non-negative logical index the mapping is Euclidean `(i + front) % size` |
| RingIndex.RingIdxPeriodic | include/Ringbuffer.h:64-71 | adding a multiple of the size to a logical index addresses the same element |
| RingIndex.RingIdxBijective | include/Ringbuffer.h:64-71 | the logical indices `0..size-1` map one-to-one onto the vector indices, with `VecIdxToRingIdx` as the inverse |
| RingIndex.IncrementedFront | include/Ringbuffer.h:93-103 | 0 on an empty buffer; otherwise in `[0,size)`, equal to `front + amount` less one turn when that wraps |
| RingIndex.DecrementedFront | include/Ringbuffer.h:81-90 | 0 on an empty buffer; otherwise non-negative, `front - amount` plus one turn when that is negative, and not above the size |
| RingIndex.DecrementedFrontIsRemainder | include/Ringbuffer.h:81-90 | decrementing by `amount` from an in-range front gives `(front - amount) mod size` |
| RingIndex.Ring.View | include/Ringbuffer.h:106-119 | the logical contents: element `i` is the vector element at `RingIdxToVecIdx(i)` |
| RingIndex.ViewAt | include/Ringbuffer.h:106-119 | `at(i)` reads element `i` of the logical contents |
| RingIndex.AssignView | include/Ringbuffer.h:106-119 | assigning through `at(i)` replaces logical element `i` and nothing else |
| RingIndex.PushFront | include/Ringbuffer.h:657-675 | keeps the size and leaves a valid front index below the size, so never the boundary state; the contents are stated by `PushFrontView` |
| RingIndex.PushBack | include/Ringbuffer.h:688-707 | keeps the size and leaves a valid front index below the size, so never the boundary state; the contents are stated by `PushBackView` |
| RingIndex.PushFrontView | include/Ringbuffer.h:657-675 | `push_front(v)` on a non-empty buffer makes the contents `[v] + old` without its last element: the size is kept |
| RingIndex.PushBackView | include/Ringbuffer.h:688-707 | `push_back(v)` on a non-empty buffer makes the contents `old` without its first element, then `v`: the size is kept |
| RingIndex.InsertView | include/Ringbuffer.h:818-838 | inserting `s` before logical position `pos` gives `old[..pos] + s + old[pos..]`, except from the boundary state (see `InsertAtBoundary`) |
| RingIndex.InsertAtBoundary | include/Ringbuffer.h:818-838 | from the boundary state (front index equal to the size) an insert at the end puts the elements at the front |
| RingIndex.EraseView | include/Ringbuffer.h:842-859 | erasing logical position `pos` gives `old[..pos] + old[pos+1..]` |
| RingIndex.Erase | include/Ringbuffer.h:842-859 | the vector loses one slot; what this does to the contents and to the boundary state is stated by `EraseView` |
| RingIndex.EraseAtZeroFront | include/Ringbuffer.h:842-859 | an erase at logical 0 leaves the front index at the smaller of the old front and the new size |
| RingIndex.Insert | include/Ringbuffer.h:818-838 | the vector gains `|s|` slots; the resulting contents are stated by `InsertView` and `InsertAtBoundary` |
| RingIndex.ChangeFrontView | include/Ringbuffer.h:74-77 | setting the front index rotates the contents |
| RingIndex.IncrementView | include/Ringbuffer.h:93-103 | incrementing the front by `k` rotates the contents left by `k` |
| RingIndex.DecrementView | include/Ringbuffer.h:81-90 | decrementing the front by `k` rotates the contents right by `k` |
| RingIndex.RotateTwice | include/Ringbuffer.h:81-103 | two rotations compose to one by the sum of their amounts |
| RingIndex.EraseKeepingFrontInRange | include/Ringbuffer.h:842-859 | corrected erase: same contents as `erase`, and the front index stays below the size |
| RingIndex.AppendAfterErase | include/Ringbuffer.h:842-859 | after the corrected erase, inserting at the end appends |
| RingIndex.EraseThenAppendAsWritten | include/Ringbuffer.h:842-859 | vector `{1,2,3}` with front 2 (contents `3,1,2`): erasing position 0 reaches the boundary state, and inserting 9 at the end then gives `9,1,2`, not `1,2,9` |
| Ringbuffers.Ringbuffer.Empty | include/Ringbuffer.h:20 | the empty buffer |
| Ringbuffers.Ringbuffer.Fill | include/Ringbuffer.h:23-26 | `size` copies of `val` |
| Ringbuffers.Ringbuffer.FromSeq | include/Ringbuffer.h:30-33 | the given elements in order |
| Ringbuffers.Ringbuffer.Size | include/Ringbuffer.h:61 | the number of elements, equal to the contents' length |
| Ringbuffers.Ringbuffer.At | include/Ringbuffer.h:106-119 | element `index mod size` of the contents, negative indices included |
| Ringbuffers.Ringbuffer.Front | include/Ringbuffer.h:635-642 | the first element of the contents |
| Ringbuffers.Ringbuffer.Back | include/Ringbuffer.h:645-652 | the last element of the contents |
| Ringbuffers.Ringbuffer.Assign | include/Ringbuffer.h:106-119 | writing through `at(i)` replaces element `i` of the contents |
| Ringbuffers.Ringbuffer.ChangeFrontIndex | include/Ringbuffer.h:74-77 | the contents rotated to start at the new front |
| Ringbuffers.Ringbuffer.IncrementFrontIndex | include/Ringbuffer.h:93-103 | the contents rotated left by the amount |
| Ringbuffers.Ringbuffer.DecrementFrontIndex | include/Ringbuffer.h:81-90 | the contents rotated right by the amount |
| Ringbuffers.Ringbuffer.PushFront | include/Ringbuffer.h:657-675 | the front moves back one slot and is overwritten: contents become `[v] + old[..size-1]` |
| Ringbuffers.Ringbuffer.PushBack | include/Ringbuffer.h:688-707 | the front moves on one slot and the back is overwritten: contents become `old[1..] + [v]` |
| Ringbuffers.Ringbuffer.InsertRange | include/Ringbuffer.h:818-838 | range insert splices the elements in at `pos`, or, from the boundary state, at the front |
| Ringbuffers.Ringbuffer.Insert | include/Ringbuffer.h:775-793 | single insert splices `[v]` in at `pos`, and returns the iterator's index |
| Ringbuffers.Ringbuffer.InsertFill | include/Ringbuffer.h:796-815 | `count` copies of `v` spliced in at `pos` |
| Ringbuffers.Ringbuffer.EmplaceFront | include/Ringbuffer.h:761-763 | an insert at `begin()`: contents become `[v] + old`, returning index 0 |
| Ringbuffers.Ringbuffer.EmplaceBack | include/Ringbuffer.h:769-771 | an insert at `end()`: contents become `old + [v]`, or `[v] + old` from the boundary state |
| Ringbuffers.Ringbuffer.Erase | include/Ringbuffer.h:842-859 | element `pos` removed from the contents; the front index may reach the size |
| Ringbuffers.Ringbuffer.EraseKeepingFrontInRange | include/Ringbuffer.h:842-859 | corrected erase: element `pos` removed, and a later insert at the end appends |
| Ringbuffers.Ringbuffer.EraseRange | include/Ringbuffer.h:864-871 | `[first,last)` removed from the contents. From `first >= 1` the boundary state holds afterwards exactly when it held before and elements remain. From `first == 0` the front index becomes the smaller of the old front and the new size, so the boundary state results exactly when `0 < new size <= old front` |
| Ringbuffers.Ringbuffer.PopFront | include/Ringbuffer.h:711-719 | returns the first element and removes it; the new state is the ring-level `Erase` at logical 0, which reaches the boundary state exactly when at least two elements were there and the old front index was the size or the size minus one |
| Ringbuffers.Ringbuffer.PopBack | include/Ringbuffer.h:722-730 | returns the last element and removes it; the new state is the ring-level `Erase` at logical `size - 1`, in the boundary state exactly when it was before and at least two elements were there |
| Ringbuffers.Ringbuffer.Clear | include/Ringbuffer.h:874-877 | no elements, front index 0 |
| Ringbuffers.Ringbuffer.Begin | include/Ringbuffer.h:572-574 | a forward iterator at logical index 0 |
| Ringbuffers.Ringbuffer.End | include/Ringbuffer.h:582-584 | a forward iterator at logical index `size` |
| Ringbuffers.Ringbuffer.RBegin | include/Ringbuffer.h:593-595 | a reverse iterator at logical index `size - 1` |
| Ringbuffers.Ringbuffer.REnd | include/Ringbuffer.h:603-605 | a reverse iterator at logical index `-1` |
| Ringbuffers.Ringbuffer.EndMinusBegin | include/Ringbuffer.h:210-217 | `end() - begin()` is 0 as written, while the distance is the size |
| Ringbuffers.Iterator.constructor | include/Ringbuffer.h:136 | an iterator over the given buffer, direction and index |
| Ringbuffers.Iterator.Step | include/Ringbuffer.h:383-430 | `++` moves by +1 forward and by -1 in reverse |
| Ringbuffers.Iterator.Deref | include/Ringbuffer.h:151-154 | `*it` is the buffer's `at(index)` |
| Ringbuffers.Iterator.PrefixIncrement | include/Ringbuffer.h:162-165 | the index advances one step |
| Ringbuffers.Iterator.PostfixIncrement | include/Ringbuffer.h:168-172 | returns an advanced copy and leaves the receiver as it was |
| Ringbuffers.Iterator.PrefixDecrement | include/Ringbuffer.h:175-178 | the index goes back one step |
| Ringbuffers.Iterator.PostfixDecrement | include/Ringbuffer.h:181-185 | returns a copy moved back and leaves the receiver as it was |
| Ringbuffers.Iterator.AddAssign | include/Ringbuffer.h:188-190 | the index advances `n` steps |
| Ringbuffers.Iterator.SubAssign | include/Ringbuffer.h:199-201 | the index goes back `n` steps |
| Ringbuffers.Iterator.Plus | include/Ringbuffer.h:193-197 | a new iterator `n` steps ahead |
| Ringbuffers.Iterator.Minus | include/Ringbuffer.h:204-208 | a new iterator `n` steps back |
| Ringbuffers.Iterator.Difference | include/Ringbuffer.h:210-217 | `it1 - it2` as written: always 0 |
| Ringbuffers.Iterator.Distance | include/Ringbuffer.h:210-217 | corrected difference: the number of steps from `other` to this iterator |
| Ringbuffers.Iterator.Equals | include/Ringbuffer.h:220-222 | equal exactly when the indices are equal |
| Ringbuffers.Iterator.NotEquals | include/Ringbuffer.h:225-227 | the negation of `Equals` |
| Geometry.Direction.Normalize | lib/Game/Game.h:77-81 | each component becomes its sign: 1 when positive, -1 when negative, 0 when zero (so `|x| * r.x == x`) |
| Geometry.NormalizeIdempotent | lib/Game/Game.h:77-81 | normalizing twice is normalizing once; only `(0,0)` normalizes to `(0,0)`; normalizing commutes with taking the opposite |
| Geometry.DirectionSumLaws | lib/Snake/Snake.h:37-40 | direction addition is commutative, with `(0,0)` as identity |
| Geometry.SumZeroIffOpposite | lib/Snake/Snake.cpp:77 | `d + e == (0,0)` exactly when `e` is `d`'s opposite |
| Geometry.PlusMinusRoundTrip | lib/Snake/Snake.h:100-122 | `(p + d) - d == p`, `(p - d) + d == p`, and `p - d` is `p` plus the opposite of `d` |
| Geometry.PlusComposes | lib/Snake/Snake.h:100-110 | `(p + d) + e == p + (d + e)` |
| Geometry.Position.Difference | lib/Snake/Snake.h:155-163 | `start + (p - start) == p` |
| Geometry.DifferenceIsDirection | lib/Snake/Snake.h:155-163 | `p - q` is `direction(q, p)`, and it is the only direction that takes `q` to `p` |
| Geometry.IncrementsMoveOneAxis | lib/Snake/Snake.h:125-146 | prefix `++`/`--` move `x` by one, postfix `++`/`--` move `y` by one, and each pair undoes the other |
| Geometry.DistanceSquared | lib/Snake/Snake.h:149-153 | non-negative, and 0 exactly when the positions are equal |
| Geometry.DistanceSquaredSymmetric | lib/Snake/Snake.h:149-153 | the distance does not depend on argument order, and is the squared length of `q - p` |
| Geometry.GameBoard.Size | lib/Snake/Snake.h:303 | non-negative for non-negative sides; 0 exactly when a side is 0 |
| Geometry.NewBoard | lib/Snake/Snake.h:293-301 | the given size, with the default flags: both axes loop, neither is inverted |
| SnakeDirections.NamedStepsYUp | lib/Snake/Snake.cpp:5-12 | each diagonal is the sum of its two straight steps, opposite names are opposite steps, all eight are unit steps, and `Up` is `+y` (postfix `++`) |
| SnakeDirections.NormalizeAsWritten | lib/Snake/Snake.h:46-50 | `normalize()` as written: each component is 1 exactly when it was positive, and 0 otherwise |
| SnakeDirections.NormalizeAsWrittenLosesNegatives | lib/Snake/Snake.h:46-50 | the as-written `normalize()` agrees with the sign version exactly when no component is negative; `Left` becomes `(0,0)` |
| GameDirections.NamedStepsYDown | lib/Game/Game.cpp:10-18 | each diagonal is the sum of its two straight steps, opposite names are opposite steps, `None` is `(0,0)`, the named directions are exactly those `normalize()` leaves unchanged, and `Down` is `+y` |
| GameDirections.DirectionToString | lib/Game/Game.h:83-94 | a non-empty string that starts with `(` exactly when the direction has no name |
| GameDirections.Coordinates | lib/Game/Game.h:198 | `"(%d/%d)"`: at least five characters, opening with `(` and closing with `)`; `CoordinatesInjective` reads it back |
| GameDirections.PositionToString | lib/Game/Game.h:198 | a string in parentheses (see `PositionToStringInjective`) |
| GameDirections.CoordinatesInjective | lib/Game/Game.h:12-26 | `(%d/%d)` is injective: equal strings have equal coordinates |
| GameDirections.DirectionToStringInjective | lib/Game/Game.h:83-94 | different directions give different strings |
| GameDirections.PositionToStringInjective | lib/Game/Game.h:198 | different positions give different strings |
| Decimal.NatToDecimal | lib/Game/Game.h:12-26 | the digits of a natural number: at least one, all decimal digits, and no leading zero except in `0`; `NatRoundTrip` reads them back |
| Decimal.IntToDecimal | lib/Game/Game.h:12-26 | `%d`: non-empty, starting with `-` exactly for a negative integer, and free of `/`, `(` and `)`, so it cannot run into the separators of `(%d/%d)`; `IntRoundTrip` reads it back |
| Decimal.NatRoundTrip | lib/Game/Game.h:12-26 | reading back the decimal digits of a natural number gives the number |
| Decimal.IntRoundTrip | lib/Game/Game.h:12-26 | reading back `%d` of an integer gives the integer |
| GameInput.FirstStep | lib/Game/Game.cpp:21-60 | the answer of the pad's `else if` chain: `None` or one of the listed steps; `FirstStepIsFirstPressed` and `PadPicksFirstPressed` say which |
| GameInput.ControlPadDirection | lib/Game/Game.cpp:21-60 | a step of at most one cell on each axis |
| GameInput.PadPicksFirstPressed | lib/Game/Game.cpp:21-60 | the step of the first pressed button, in the order up, down, left, right, up-right, up-left, down-left, down-right; `None` exactly when the controller is off or nothing is pressed |
| GameInput.PadPriorityExamples | lib/Game/Game.cpp:21-60 | `up` wins over every other button; `down-right` counts only when pressed alone |
| GameInput.Comp | lib/Game/Game.cpp:82 | `comp` evaluated exactly, with C++ truncating division: non-negative for a non-negative argument; `CompBounds` adds that it is odd and at most half its argument |
| GameInput.Wrap32 | lib/Game/Game.cpp:82 | the product reduced to the signed 32-bit range, equal to the exact product whenever that fits |
| GameInput.CompAsWritten | lib/Game/Game.cpp:82 | the 32-bit `comp` agrees with the exact one on every `int8` argument |
| GameInput.CompBounds | lib/Game/Game.cpp:82 | `comp` is odd and lies between 0 and half its argument (the tangent of 22.5 degrees, about 0.414) |
| GameInput.InDeadZone | lib/Game/Game.cpp:76-79 | the dead-zone test with the `uint32_t` square of the threshold: for thresholds below 65536 it holds exactly when `x² + y² < threshold²` |
| GameInput.ClassifyStick | lib/Game/Game.cpp:84-115 | the eight-sector chain answers one of the nine named values; `StickCoversAllDeflections`, `StickAgreesWithDeflection` and `StraightStepsNeedDominantAxis` say which |
| GameInput.StickDirection | lib/Game/Game.cpp:62-119 | one of the eight named directions or `None` |
| GameInput.StickDirectionAsWritten | lib/Game/Game.cpp:62-119 | the stick with the 32-bit `comp`: still one of the eight named directions or `None` |
| GameInput.StickAsWrittenAgrees | lib/Game/Game.cpp:82-115 | the stick as written equals the corrected stick whenever neither axis reads -128 |
| GameInput.StickCoversAllDeflections | lib/Game/Game.cpp:84-115 | the sector chain is `None` only for a centred stick |
| GameInput.StickAgreesWithDeflection | lib/Game/Game.cpp:84-115 | the step's `x` is 0 or the sign of the stick's `x`; its `y` is 0 or the opposite of the sign of `y` |
| GameInput.StraightStepsNeedDominantAxis | lib/Game/Game.cpp:84-115 | a straight step needs its axis at least twice the other |
| GameInput.StickDeadZone | lib/Game/Game.cpp:76-79 | inside the threshold circle the result is `None`; outside it, `None` only when centred |
| GameInput.FullDeflectionAsWritten | lib/Game/Game.cpp:82-115 | with a 32-bit `comp`, a stick fully down reads `DownRight` and fully left reads `UpLeft` |
| GameInput.Ps4Direction | lib/Game/Game.cpp:121-123 | `get_direction_from_ps4` as written, with the 32-bit `comp`: the pad's step plus the left stick's step, each component in `[-2,2]` |
| GameInput.Ps4DirectionCorrected | lib/Game/Game.cpp:121-123 | the same sum over the corrected stick, each component in `[-2,2]` |
| GameInput.Ps4AsWrittenDiffersOnlyAtFullDeflection | lib/Game/Game.cpp:82-123 | the two agree unless a left-stick axis reads -128; with the stick fully down and no button pressed, the source gives `DownRight` where `Down` is meant |
| GameInput.Ps4InsideDeadZone | lib/Game/Game.cpp:121-123 | inside the left stick's dead zone the pad alone decides |
| GameInput.Ps4WithoutButtons | lib/Game/Game.cpp:121-123 | with no button pressed the left stick (as written) alone decides |
| Snakes.FirstBiteIsLeast | lib/Snake/Snake.h:256-268 | the bite mark is the first body part after the head that sits on the head, or the end if none does |
| Snakes.Snake.constructor | lib/Snake/Snake.h:230 | `length` copies of the initial position |
| Snakes.Snake.Length | lib/Snake/Snake.h:237 | the number of body parts |
| Snakes.Snake.Head | lib/Snake/Snake.h:233-234 | the first body part |
| Snakes.Snake.Tail | lib/Snake/Snake.h:235-236 | the last body part |
| Snakes.Snake.SetHead | lib/Snake/Snake.cpp:85 | assigning through `head()` replaces the first body part only |
| Snakes.Snake.Move | lib/Snake/Snake.h:252-254 | the body becomes `[new head] + old body without its last part`; the length is kept |
| Snakes.Snake.Grow | lib/Snake/Snake.h:239-241 | the tail doubled: the body becomes `old + [tail]` |
| Snakes.Snake.Eat | lib/Snake/Snake.h:243-245 | the same as `grow()` |
| Snakes.Snake.BiteOffTail | lib/Snake/Snake.h:247-250 | the body cut to its first `mark` parts; returns the new length |
| Snakes.Snake.IsBitingItself | lib/Snake/Snake.h:256-268 | whether a body part after the head sits on the head, and the first such part |
| SnakeGame.ReadPad | lib/Snake/Snake.cpp:32-69 | a disconnected controller keeps the direction, and a unit-step direction stays a unit step |
| SnakeGame.ReadPadMirrorsControlPad | lib/Snake/Snake.cpp:32-69 | the snake's pad chain has the priority of `get_direction_from_ps4_control_pad`: a pressed button gives that function's step mirrored in `y` (the two files' `Up` point opposite ways), and no input keeps the direction |
| SnakeGame.Invert | lib/Snake/Snake.cpp:73-74 | negating the flagged components keeps a unit step a unit step |
| SnakeGame.NextDirection | lib/Snake/Snake.cpp:31-77 | the new direction never cancels the old one |
| SnakeGame.NextDirectionIsSafe | lib/Snake/Snake.cpp:31-77 | from a unit step, the next direction is a unit step and never the reversal |
| SnakeGame.InvertedXWithoutInput | lib/Snake/Snake.cpp:73-77 | with no input on the `x`-inverted board, a straight direction is kept and a diagonal is flipped in `x` |
| SnakeGame.InvertedXExamples | lib/Snake/Snake.cpp:73-77 | on the game's board, `right` pressed alone while moving `Up` turns `Left`, and is refused (the direction kept) while moving `Left` |
| SnakeGame.WrapAxis | lib/Snake/Snake.cpp:83-100 | `(c + extent) % extent` with C++ `%` for an out-of-range coordinate; a coordinate on the board is kept. `WrapAxisReduces` gives the wrap |
| SnakeGame.WrapAxisReduces | lib/Snake/Snake.cpp:83-100 | a coordinate at most one board width away wraps into `[0,extent)`, congruent to the original; one in range is unchanged |
| SnakeGame.WrapHead | lib/Snake/Snake.cpp:83-100 | the edge checks, `x` first: the pass ends exactly when the head leaves an axis that does not loop |
| SnakeGame.WrapHeadOutcome | lib/Snake/Snake.cpp:83-100 | the game ends exactly when the head leaves a non-looping axis; a head on the board is unchanged |
| SnakeGame.CreateRandomFruit | lib/Snake/Snake.cpp:14-16 | the board's centre, which is on a non-empty board |
| SnakeGame.CountAtZero | lib/Snake/Snake.cpp:110-117 | no fruit is eaten exactly when none lies on the head |
| SnakeGame.Refill | lib/Snake/Snake.cpp:110-117 | every fruit on the head replaced by the new fruit, the others kept |
| SnakeGame.TickKeepsSnakeOnBoard | lib/Snake/Snake.cpp:28-117 | a pass keeps the snake on the board and its direction a unit step |
| SnakeGame.TickOutcome | lib/Snake/Snake.cpp:28-117 | the pass ends the game exactly on leaving a non-looping axis; otherwise the head is wrapped, the snake grows only by fruits on the head, and the fruits change only if one was there |
| SnakeGame.InitialStateOnBoard | lib/Snake/Snake.cpp:21-26 | the initial snake is on the board, and the initial direction is a unit step |
| SnakeGame.SnakeGameTask.constructor | lib/Snake/Snake.cpp:21-26 | a 30 by 10 board looping on both axes with `x` inverted; five parts at the centre; moving right; no fruits |
| SnakeGame.SnakeGameTask.Steer | lib/Snake/Snake.cpp:31-77 | the direction becomes `NextDirection` of the old one |
| SnakeGame.SnakeGameTask.WrapSnakeHead | lib/Snake/Snake.cpp:83-100 | the head is wrapped, or the pass reports the end of the game |
| SnakeGame.SnakeGameTask.EatFruits | lib/Snake/Snake.cpp:110-117 | the snake grows once per fruit on the head, and those fruits are replaced by the centre |
| SnakeGame.SnakeGameTask.EatAt | lib/Snake/Snake.cpp:112-115 | one fruit eaten: the tail doubled and that fruit replaced |
| SnakeGame.SnakeGameTask.MoveAndWrap | lib/Snake/Snake.cpp:80-100 | the body and the end-of-game flag are as `MoveAndWrapSpec` gives them |
| SnakeGame.SnakeGameTask.BiteAndEat | lib/Snake/Snake.cpp:104-117 | the body and fruits are as `BiteAndEatSpec` gives them |
| SnakeGame.SnakeGameTask.Tick | lib/Snake/Snake.cpp:28-117 | one pass of the loop, as `TickSpec` gives it |
| LedMatrices.EnumValuesAreExact | lib/Game/LedMatrix.h:18-30 | each enumeration has exactly the four values 0 to 3, one per enumerator |
| LedMatrices.LedMatrix.Width | lib/Game/LedMatrix.h:92 | the window's width |
| LedMatrices.LedMatrix.Height | lib/Game/LedMatrix.h:93 | the window's height |
| LedMatrices.LedMatrix.Size | lib/Game/LedMatrix.h:94 | 0 exactly when the width or height is 0 |
| LedMatrices.NewMatrix | lib/Snake/LedMatrix.cpp:69-83 | a window that is the whole grid, with size `width * height` |
| LedMatrices.LedMatrix.Submat | lib/Snake/LedMatrix.cpp:142-154 | the same grid, wiring and start, with the new window fields |
| LedMatrices.LedMatrix.BasematAsWritten | lib/Snake/LedMatrix.cpp:157-167 | `basemat()` as written keeps the window's width and height, where the corrected `Basemat` resets them to the grid's |
| LedMatrices.BasematAsWrittenKeepsWindow | lib/Snake/LedMatrix.cpp:157-167 | the as-written `basemat()` returns the receiver unchanged; the corrected one forgets any window |
| LedMatrices.BasematAsWrittenExample | lib/Snake/LedMatrix.cpp:157-167 | a 2 by 2 window of a 4 by 4 grid stays 2 by 2 under the as-written `basemat()` |
| LedMatrices.LedMatrix.Basemat | lib/Snake/LedMatrix.cpp:157-167 | corrected: the window is the whole grid |
| LedMatrices.LedIndex | lib/Snake/LedMatrix.cpp:11-66 | the strip index of a grid cell is its wire times the wire length plus its place on the wire; `LedIndexBounds`, `CellOfLedIndex` and `LedIndexOfCellOf` make it a bijection onto the strip |
| LedMatrices.LedIndexIsWireMajor | lib/Snake/LedMatrix.cpp:11-66 | all 16 wiring cases are "wire number times wire length plus place on the wire" |
| LedMatrices.LedIndexBounds | lib/Snake/LedMatrix.cpp:11-66 | every grid cell maps into `[0, base_width * base_height)` |
| LedMatrices.CellOfLedIndex | lib/Snake/LedMatrix.cpp:11-66 | the mapping is injective: the cell can be read back from its strip index |
| LedMatrices.LedIndexOfCellOf | lib/Snake/LedMatrix.cpp:11-66 | the mapping is onto: every LED is some cell's index |
| LedMatrices.ZigZagIsContinuous | lib/Snake/LedMatrix.cpp:11-66 | with zig-zag wiring, consecutive LEDs are neighbouring cells |
| LedMatrices.BaseCell | lib/Snake/LedMatrix.cpp:4-9 | a window cell maps inside the grid when the window fits |
| LedMatrices.BaseCellInjective | lib/Snake/LedMatrix.cpp:4-9 | different window cells are different grid cells |
| LedMatrices.At | lib/Snake/LedMatrix.cpp:132-139 | `(row, column)` of the window is an LED of the strip |
| LedMatrices.Index | lib/Snake/LedMatrix.cpp:118-129 | `[k]` of the window is an LED of the strip |
| LedMatrices.IndexIsRowMajor | lib/Snake/LedMatrix.cpp:118-129 | `[r * width + c]` is `(r, c)` |
| LedMatrices.AtInjective | lib/Snake/LedMatrix.cpp:132-139 | through a window that fits, different cells light different LEDs |
| LedMatrices.NewMatrixIsWholeGrid | lib/Snake/LedMatrix.cpp:69-83 | a fresh matrix addresses the grid directly |

## Left out

- The PS4 controller library, `Serial` logging, `vTaskDelay` and FreeRTOS are not modelled. The controller state of a pass is a parameter (`Controller`, `PadButtons`).
- The snake and fruit colours (`CRGB`), the raw `leds` storage and all drawing are not modelled. The `LedMatrix` index operators return strip indices, not references to LEDs.
- `get_direction_from_game_ai` is not modelled. The `Fruit` type and colour are not modelled: the `std::vector<Fruit>` is an array of positions, since the loop only reads and writes positions.
- The setters (`set_x`, `set_y`, `set_xy`) and the in-place operators of `Position` and `Direction` (`+=`, `-=`, `++`, `--`, `normalize()`) are modelled as functions from the old value to the new one. The returned reference, which aliases the receiver, is not modelled.
- RingIndex.IncrementedFront, RingIndex.DecrementedFront, Ringbuffers.Ringbuffer.IncrementFrontIndex, Ringbuffers.Ringbuffer.DecrementFrontIndex: these take a non-negative `amount`. The source takes `int32_t` and accepts negative amounts: `increment_front_index(-1)` from front 0 of 3 leaves the front at -1 through C++ `%`, and `decrement_front_index(-1)` from front 2 of 3 leaves it at 3. Every call in the program passes 1 or a non-negative count.
- Copy and move constructors and copy assignment are not modelled. They copy fields, and value semantics in Dafny gives that for free.
- The `const_iterator` and `const_reverse_iterator` variants are not modelled separately. They do the same arithmetic as `iterator` and `reverse_iterator`.
- `emplace` is the same as `insert`, so both are modelled by `Ringbuffers.Ringbuffer.Insert`.
- Iterators are modelled as a buffer plus a logical index. Address identity and invalidation after a change to the buffer are not modelled.
- SnakeGame.SnakeGameTask.Tick: one pass of the `while (true)` loop. The loop itself, which ends only through `break`, is the caller's repetition of `Tick` until it reports the end.
- SnakeGame.WrapAxisReduces: states the wrap only for coordinates at most one board size outside. A unit step from the board never goes further.
- Integer widths: `int32_t` and `uint32_t` are unbounded integers, with two exceptions that are written out. In `comp` the product wraps as a signed 32-bit `long` (finding 5). In the dead zone the squared threshold wraps as an unsigned 32-bit product.
- GameInput.StickDeadZone: stated for thresholds below 65536, whose square does not wrap. The game uses 100.
- The stick axes are the library's `int8_t` values (`StickAxis`).
- LedMatrices.At, LedMatrices.Index: these require in-range indices and a window that fits the grid. The source does not check them, and outside them it indexes beyond the strip.
- Object identity of iterators is not modelled. `operator-` compares addresses (`this == &other`), and either way its result is 0. `Ringbuffers.Iterator.Difference` states that result directly.
- Ringbuffers.Ringbuffer.PushFront, Ringbuffers.Ringbuffer.PushBack, Ringbuffers.Ringbuffer.PopFront, Ringbuffers.Ringbuffer.PopBack: these require a non-empty buffer. On an empty one the source reads or writes the front of an empty vector, which is undefined behaviour.
- Ringbuffers.Ringbuffer.At: stated for a non-empty buffer. On an empty one the index map gives slot 0 of an empty vector, which is undefined behaviour.
- `Snake.cpp` reads the pad in its own branch chain, `SnakeGame.ReadPad`. It does not call `get_direction_from_ps4`, which is modelled separately.

## Findings

| source | as written | input that shows it | evidently intended | confidence | as-written member | corrected member |
|---|---|---|---|---|---|---|
| include/Ringbuffer.h:842-859 | erasing logical position 0 when the front index is `size - 1` leaves the front index equal to the new size; a later insert at the end then goes to the front. `pop_front()` and `erase(begin(), last)` reach the same state, as the contracts of `PopFront` and `EraseRange` state | vector `{1,2,3}` with front index 2 (contents `3,1,2`): erase position 0, then insert 9 at `end()`: contents `9,1,2` | the front index reduced to 0, so the insert appends: `1,2,9` | not executed | RingIndex.EraseThenAppendAsWritten | RingIndex.AppendAfterErase |
| lib/Snake/Snake.h:46-50 | `normalize()` sets a component to `x > 0`, which is 1 or 0 | `Left` (-1, 0) normalizes to (0, 0) | the component's sign, as in the other copy at lib/Game/Game.h:77-81 | not executed | SnakeDirections.NormalizeAsWrittenLosesNegatives | Geometry.Direction.Normalize |
| lib/Snake/LedMatrix.cpp:157-167 | `basemat()` copies the matrix and assigns the copy's window fields from themselves, so the window is kept | the top-left 2 by 2 window of a 4 by 4 grid: `basemat()` is still 2 by 2 | the window reset to the whole grid | not executed | LedMatrices.BasematAsWrittenExample | LedMatrices.LedMatrix.Basemat |
| include/Ringbuffer.h:210-217 | `it1 - it2` subtracts the indices only when both operands are the same object, where the difference is 0; otherwise it returns 0 | `end() - begin()` on a buffer of 3 elements is 0 | the signed number of steps, 3 | not executed | Ringbuffers.Ringbuffer.EndMinusBegin | Ringbuffers.Iterator.Distance |
| lib/Game/Game.cpp:82 | `comp(v)` multiplies by 16777216 in `long`, which overflows for `v = 128` only (`-128 * 16777216` is exactly `-2^31`); the chain asks for `comp(128)` through `comp(-analog_y)` and `comp(-analog_x)` when an axis reads -128 | left stick at (0, -128), fully down: `comp(128)` wraps to -53 and the chain answers `DownRight` | `Down` | not executed; assumes the library's `int8_t` stick values and the ESP32's 32-bit `long` with wrapping signed overflow | GameInput.FullDeflectionAsWritten | GameInput.StickDirection |
