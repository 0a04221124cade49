/** The index bookkeeping of `Ringbuffer<T>` as values.

    A ring buffer is a vector `vec` plus `front`, the vector slot that holds
    logical index 0. Logical index `i` lives in slot
    `(front + i + size) % size`. `Ring` is that pair; the functions below are
    what each operation of the buffer does to it, and the lemmas say what
    each does to the logical sequence `View()`. */
module RingIndex {
  import opened CppArith

  /** `ring_idx_to_vec_idx`: the vector slot of logical index `index`. */
  function RingIdxToVecIdx(front: int, index: int, size: nat): (r: int)
    ensures size == 0 ==> r == 0
    ensures size > 0 && front + index + size >= 0 ==> 0 <= r < size
  {
    if size > 0 then Rem(front + index + size, size) else 0
  }

  /** `increment_front_index(amount)`: the new front after moving `amount`
      slots forward; an empty vector resets it to 0. */
  function IncrementedFront(front: int, amount: nat, size: nat): (f: int)
    ensures size == 0 ==> f == 0
    ensures size > 0 && front >= 0 ==> 0 <= f < size
    ensures size > 0 && 0 <= front + amount < size ==> f == front + amount
    ensures size > 0 && size <= front + amount < 2 * size ==> f == front + amount - size
  {
    if size > 0 then
      ModBelowTwoTurns(front + amount, size);
      Rem(front + amount, size)
    else 0
  }

  /** `decrement_front_index(amount)`: subtract, then add the size until the
      front is no longer negative; an empty vector resets it to 0. */
  function DecrementedFront(front: int, amount: nat, size: nat): (f: int)
    ensures size == 0 ==> f == 0
    ensures size > 0 ==> f >= 0
    ensures front - amount <= size ==> f <= size
    ensures size > 0 && front - amount < size ==> f < size
    ensures size > 0 && front - amount >= 0 ==> f == front - amount
    ensures size > 0 && 0 <= front - amount + size && front - amount < 0 ==> f == front - amount + size
  {
    if size == 0 then 0
    else if front - amount >= 0 then front - amount
    else
      ModBelowTwoTurns(front - amount + size, size);
      (front - amount) % size
  }

  /** Euclidean remainder of a value within one turn either side of `[0, n)`. */
  lemma ModBelowTwoTurns(x: int, n: int)
    requires n > 0
    ensures 0 <= x < n ==> x % n == x
    ensures n <= x < 2 * n ==> x % n == x - n
    ensures 0 <= x < n ==> (x - n) % n == x
  {
    if 0 <= x < n {
      ModUnique(x, n, 0, x);
      ModUnique(x - n, n, -1, x);
    } else if n <= x < 2 * n {
      ModUnique(x, n, 1, x - n);
    }
  }

  /** The state of a `Ringbuffer<T>`: the vector and `front_index`. */
  datatype Ring<T> = Ring(vec: seq<T>, front: int)
  {
    /** Every state the buffer's operations can reach: the front is a slot
        of the vector or, after the erase described at `Erase`, one past it. */
    predicate Valid()
    {
      0 <= front <= |vec|
    }

    /** The boundary state: `front_index` equals the size of a non-empty vector. */
    predicate AtBoundary()
    {
      |vec| > 0 && front == |vec|
    }

    /** A logical index the map sends to a slot: on an empty vector every
        index (it yields 0), otherwise any index from `-size` on. */
    predicate Addressable(index: int)
    {
      |vec| == 0 || -|vec| <= index
    }

    /** The logical sequence: the vector read from the front slot round to
        the slot before it (`ViewAt` shows this is what the index map reads). */
    function View(): (s: seq<T>)
      requires Valid()
      ensures |s| == |vec|
    {
      vec[front..] + vec[..front]
    }
  }

  /** `at(index) = v`: overwrite the slot that logical `index` names. */
  function Assign<T>(r: Ring<T>, index: int, v: T): (r': Ring<T>)
    requires r.Valid() && |r.vec| > 0 && r.Addressable(index)
    ensures |r'.vec| == |r.vec|
  {
    Ring(r.vec[RingIdxToVecIdx(r.front, index, |r.vec|) := v], r.front)
  }

  /** `push_front(v)`: step the front back one slot and overwrite it. */
  function PushFront<T>(r: Ring<T>, v: T): (r': Ring<T>)
    requires r.Valid() && |r.vec| > 0
    ensures r'.Valid() && |r'.vec| == |r.vec| && !r'.AtBoundary()
  {
    var f := DecrementedFront(r.front, 1, |r.vec|);
    Ring(r.vec[RingIdxToVecIdx(f, 0, |r.vec|) := v], f)
  }

  /** `push_back(v)`: step the front forward one slot and overwrite the back. */
  function PushBack<T>(r: Ring<T>, v: T): (r': Ring<T>)
    requires r.Valid() && |r.vec| > 0
    ensures r'.Valid() && |r'.vec| == |r.vec| && !r'.AtBoundary()
  {
    var f := IncrementedFront(r.front, 1, |r.vec|);
    Ring(r.vec[RingIdxToVecIdx(f, |r.vec| - 1, |r.vec|) := v], f)
  }

  /** `insert(position, first, last)` (and the single, fill and emplace
      forms): splice `vals` into the vector at the slot of `pos`, then move
      the front forward by `|vals|` if that slot lay before the front or
      `pos` was the end. */
  function Insert<T>(r: Ring<T>, pos: int, vals: seq<T>): (r': Ring<T>)
    requires r.Valid() && r.Addressable(pos)
    ensures |r'.vec| == |r.vec| + |vals|
  {
    var k := RingIdxToVecIdx(r.front, pos, |r.vec|);
    var vec' := r.vec[..k] + vals + r.vec[k..];
    var front' := if r.front > k || pos == |r.vec| then IncrementedFront(r.front, |vals|, |vec'|) else r.front;
    Ring(vec', front')
  }

  /** `erase(position)`: remove the slot of `pos` from the vector, then
      step the front back by one if that slot lay before the front. */
  function Erase<T>(r: Ring<T>, pos: int): (r': Ring<T>)
    requires r.Valid() && |r.vec| > 0 && r.Addressable(pos)
    ensures |r'.vec| == |r.vec| - 1
  {
    var k := RingIdxToVecIdx(r.front, pos, |r.vec|);
    var vec' := r.vec[..k] + r.vec[k + 1..];
    Ring(vec', if r.front > k then DecrementedFront(r.front, 1, |vec'|) else r.front)
  }

  /** `change_front_index(vec_index)`: make the slot of logical index
      `index` the new front. */
  function ChangeFront<T>(r: Ring<T>, index: int): (r': Ring<T>)
    requires r.Valid() && r.Addressable(index)
  {
    Ring(r.vec, RingIdxToVecIdx(r.front, index, |r.vec|))
  }

  // ---------------------------------------------------------------------
  // The index map

  /** Euclidean remainder of a value known to lie in `[q*n, (q+1)*n)`. */
  lemma ModInRange(x: int, n: int, q: int)
    requires n > 0 && q * n <= x < q * n + n
    ensures x % n == x - q * n
  {
    ModUnique(x, n, q, x - q * n);
  }

  /** The index map in closed form, for arguments within four turns. */
  lemma RingIdxClosedForm(front: int, index: int, size: nat)
    requires size > 0 && 0 <= front + index + size < 4 * size
    ensures RingIdxToVecIdx(front, index, size) ==
      if front + index < 0 then front + index + size
      else if front + index < size then front + index
      else if front + index < 2 * size then front + index - size
      else front + index - 2 * size
  {
    var x := front + index + size;
    if x < size { ModInRange(x, size, 0); }
    else if x < 2 * size { ModInRange(x, size, 1); }
    else if x < 3 * size { ModInRange(x, size, 2); }
    else { ModInRange(x, size, 3); }
  }

  /** The map is periodic: whole turns of the ring land on the same slot. */
  lemma {:induction false} RingIdxPeriodic(front: int, index: int, size: nat, turns: nat)
    requires size > 0 && front + index + size >= 0
    ensures RingIdxToVecIdx(front, index + turns * size, size) == RingIdxToVecIdx(front, index, size)
  {
    if turns > 0 {
      var x := front + index + (turns - 1) * size + size;
      RingIdxPeriodic(front, index, size, turns - 1);
      ModUnique(x + size, size, x / size + 1, x % size);
      assert index + turns * size == (index + (turns - 1) * size) + size;
    }
  }

  /** The index map is the Euclidean remainder of `front + index`. */
  lemma RingIdxIsMod(front: int, index: int, size: nat)
    requires size > 0 && front + index + size >= 0
    ensures RingIdxToVecIdx(front, index, size) == (front + index) % size
  {
    ModAddMultiple(front + index, 1, size);
  }

  /** Any index from `-size` on names the slot of its remainder modulo the size. */
  lemma RingIdxWraps(front: int, index: int, size: nat)
    requires size > 0 && front >= 0 && index + size >= 0
    ensures RingIdxToVecIdx(front, index, size) == RingIdxToVecIdx(front, index % size, size)
  {
    var m, q := index % size, index / size;
    RingIdxIsMod(front, index, size);
    RingIdxIsMod(front, m, size);
    assert front + index == front + m + q * size;
    ModAddMultiple(front + m, q, size);
  }

  /** The slot of logical index `i`, counted from the front. */
  function VecIdxToRingIdx(front: int, slot: int, size: nat): (i: int)
    requires size > 0
    ensures 0 <= i < size
  {
    (slot - front) % size
  }

  /** For a front in `[0, size]` the index map is a bijection from the
      logical indices `[0, size)` onto the slots `[0, size)`. */
  lemma RingIdxBijective(front: int, size: nat)
    requires size > 0 && 0 <= front <= size
    ensures forall i :: 0 <= i < size ==> 0 <= RingIdxToVecIdx(front, i, size) < size
    ensures forall i, j :: 0 <= i < size && 0 <= j < size && RingIdxToVecIdx(front, i, size) == RingIdxToVecIdx(front, j, size) ==> i == j
    ensures forall s :: 0 <= s < size ==> RingIdxToVecIdx(front, VecIdxToRingIdx(front, s, size), size) == s
  {
    forall i, j | 0 <= i < size && 0 <= j < size && RingIdxToVecIdx(front, i, size) == RingIdxToVecIdx(front, j, size)
      ensures i == j
    {
      RingIdxClosedForm(front, i, size);
      RingIdxClosedForm(front, j, size);
    }
    forall s | 0 <= s < size
      ensures RingIdxToVecIdx(front, VecIdxToRingIdx(front, s, size), size) == s
    {
      var i := VecIdxToRingIdx(front, s, size);
      if s >= front { ModInRange(s - front, size, 0); } else { ModInRange(s - front, size, -1); }
      RingIdxClosedForm(front, i, size);
    }
  }

  // ---------------------------------------------------------------------
  // What each operation does to the logical sequence

  /** Logical element `i` is the vector slot the index map names. */
  lemma ViewAt<T>(r: Ring<T>, i: int)
    requires r.Valid() && 0 <= i < |r.vec|
    ensures r.View()[i] == r.vec[RingIdxToVecIdx(r.front, i, |r.vec|)]
  {
    RingIdxClosedForm(r.front, i, |r.vec|);
  }

  /** Writing through `at(index)` replaces logical element `index % size`
      and nothing else. */
  lemma AssignView<T>(r: Ring<T>, index: int, v: T)
    requires r.Valid() && |r.vec| > 0 && r.Addressable(index)
    ensures Assign(r, index, v).View() == r.View()[index % |r.vec| := v]
  {
    var n, f := |r.vec|, r.front;
    var a := index % n;
    RingIdxWraps(f, index, n);
    RingIdxClosedForm(f, a, n);
    var w := Assign(r, index, v).vec;
    if f + a < n {
      assert w[f..] == r.vec[f..][a := v];
      assert w[..f] == r.vec[..f];
    } else {
      assert w[f..] == r.vec[f..];
      assert w[..f] == r.vec[..f][f + a - n := v];
    }
  }

  /** With the front at slot 0 the logical sequence is the vector itself. */
  lemma ViewAtFrontZero<T>(vec: seq<T>)
    ensures Ring(vec, 0).View() == vec
  {
  }

  /** `push_front` on a non-empty buffer: `v` becomes the front, every
      element moves one place back and the old back is lost. */
  lemma PushFrontView<T>(r: Ring<T>, v: T)
    requires r.Valid() && |r.vec| > 0
    ensures PushFront(r, v).Valid() && !PushFront(r, v).AtBoundary()
    ensures PushFront(r, v).View() == [v] + r.View()[..|r.vec| - 1]
  {
    var n, f := |r.vec|, r.front;
    var r' := PushFront(r, v);
    var f' := r'.front;
    RingIdxClosedForm(f', 0, n);
    assert r'.vec[f'..] == [v] + r.vec[f' + 1..];
    assert r'.vec[..f'] == r.vec[..f'];
    if f > 0 {
      assert f' == f - 1;
      assert r.View()[..n - 1] == r.vec[f..] + r.vec[..f - 1];
    } else {
      assert f' == n - 1;
      assert r.View()[..n - 1] == r.vec[..n - 1];
    }
  }

  /** `push_back` on a non-empty buffer: `v` becomes the back, every element
      moves one place forward and the old front is lost. */
  lemma PushBackView<T>(r: Ring<T>, v: T)
    requires r.Valid() && |r.vec| > 0
    ensures PushBack(r, v).Valid() && !PushBack(r, v).AtBoundary()
    ensures PushBack(r, v).View() == r.View()[1..] + [v]
  {
    var n, f := |r.vec|, r.front;
    var r' := PushBack(r, v);
    var f' := r'.front;
    var slot := RingIdxToVecIdx(f', n - 1, n);
    RingIdxClosedForm(f', n - 1, n);
    if f' == 0 {
      assert slot == n - 1;
      assert r.View()[1..] == r.vec[..n - 1] by {
        if f == n { } else { assert f == n - 1; }
      }
    } else {
      assert slot == f' - 1;
      assert f' == f + 1 || (f == n && f' == 1);
      if f == n {
        assert r.View()[1..] == r.vec[1..];
      } else {
        assert r.View()[1..] == r.vec[f + 1..] + r.vec[..f];
      }
      assert r'.vec[..f'] == r.vec[..f' - 1] + [v];
      assert r'.vec[f'..] == r.vec[f'..];
    }
  }

  /** Splicing at or after the front slot `f` of a rotation, front kept. */
  lemma RotateSpliceAfterFront<T>(vec: seq<T>, vals: seq<T>, f: nat, k: nat)
    requires f <= k <= |vec|
    ensures var w := vec[..k] + vals + vec[k..];
            var v := vec[f..] + vec[..f];
            w[f..] + w[..f] == v[..k - f] + vals + v[k - f..]
  {
    var w := vec[..k] + vals + vec[k..];
    var v := vec[f..] + vec[..f];
    assert w[f..] == vec[f..k] + vals + vec[k..];
    assert w[..f] == vec[..f];
    assert v[..k - f] == vec[f..k];
    assert v[k - f..] == vec[k..] + vec[..f];
  }

  /** Splicing before (or at, when inserting at the end) the front slot `f`
      of a rotation, front moved past the new values. */
  lemma RotateSpliceBeforeFront<T>(vec: seq<T>, vals: seq<T>, f: nat, k: nat)
    requires k <= f <= |vec|
    ensures var w := vec[..k] + vals + vec[k..];
            var v := vec[f..] + vec[..f];
            var pos := |vec| - f + k;
            w[f + |vals|..] + w[..f + |vals|] == v[..pos] + vals + v[pos..]
  {
    var w := vec[..k] + vals + vec[k..];
    var v := vec[f..] + vec[..f];
    var pos := |vec| - f + k;
    assert w[f + |vals|..] == vec[f..];
    assert w[..f + |vals|] == vec[..k] + vals + vec[k..f];
    assert v[..pos] == vec[f..] + vec[..k];
    assert v[pos..] == vec[k..f];
  }

  /** Insertion at `0 <= pos <= size` splices `vals` into the logical
      sequence before `pos`, except in the boundary state: there an insert
      at the end puts `vals` at the FRONT. The front always ends in range. */
  lemma InsertView<T>(r: Ring<T>, pos: int, vals: seq<T>)
    requires r.Valid() && 0 <= pos <= |r.vec|
    ensures Insert(r, pos, vals).Valid() && !Insert(r, pos, vals).AtBoundary()
    ensures Insert(r, pos, vals).View() ==
      if r.AtBoundary() && pos == |r.vec| then vals + r.View()
      else r.View()[..pos] + vals + r.View()[pos..]
  {
    var n := |r.vec|;
    if n == 0 {
    } else if r.front == n {
      InsertAtBoundary(r, pos, vals);
    } else if r.front + pos < n {
      InsertAfterFront(r, pos, vals);
    } else {
      InsertBeforeFront(r, pos, vals);
    }
  }

  lemma InsertAtBoundary<T>(r: Ring<T>, pos: int, vals: seq<T>)
    requires |r.vec| > 0 && r.front == |r.vec| && 0 <= pos <= |r.vec|
    ensures Insert(r, pos, vals).front == 0
    ensures Insert(r, pos, vals).View() ==
      if pos == |r.vec| then vals + r.View() else r.View()[..pos] + vals + r.View()[pos..]
  {
    assert r.View() == r.vec;
    var k := RingIdxToVecIdx(r.front, pos, |r.vec|);
    assert k == (if pos == |r.vec| then 0 else pos) by { RingIdxClosedForm(r.front, pos, |r.vec|); }
    SpliceAtFrontZero(r.vec, vals, k);
  }

  /** Splicing at slot `k` followed by an increment that wraps the front
      round to slot 0. */
  lemma SpliceAtFrontZero<T>(vec: seq<T>, vals: seq<T>, k: nat)
    requires 0 <= k < |vec|
    ensures var r' := Insert(Ring(vec, |vec|), if k == 0 then |vec| else k, vals);
            r' == Ring(vec[..k] + vals + vec[k..], 0) &&
            r'.View() == if k == 0 then vals + vec else vec[..k] + vals + vec[k..]
  {
    var n := |vec|;
    var pos := if k == 0 then n else k;
    var w := vec[..k] + vals + vec[k..];
    assert RingIdxToVecIdx(n, pos, n) == k by { RingIdxClosedForm(n, pos, n); }
    assert IncrementedFront(n, |vals|, |w|) == 0;
    ViewAtFrontZero(w);
    if k == 0 {
      assert vec[..0] == [] && vec[0..] == vec;
    }
  }

  lemma InsertAfterFront<T>(r: Ring<T>, pos: int, vals: seq<T>)
    requires r.Valid() && 0 <= pos < |r.vec| && r.front + pos < |r.vec|
    ensures Insert(r, pos, vals).front == r.front
    ensures Insert(r, pos, vals).View() == r.View()[..pos] + vals + r.View()[pos..]
  {
    var n, f := |r.vec|, r.front;
    RingIdxClosedForm(f, pos, n);
    RotateSpliceAfterFront(r.vec, vals, f, f + pos);
  }

  lemma InsertBeforeFront<T>(r: Ring<T>, pos: int, vals: seq<T>)
    requires 0 <= r.front < |r.vec| && 0 <= pos <= |r.vec| && r.front + pos >= |r.vec|
    ensures Insert(r, pos, vals).front == r.front + |vals|
    ensures Insert(r, pos, vals).View() == r.View()[..pos] + vals + r.View()[pos..]
  {
    var n, f := |r.vec|, r.front;
    RingIdxClosedForm(f, pos, n);
    RotateSpliceBeforeFront(r.vec, vals, f, f + pos - n);
  }

  /** Erasure at `0 <= pos < size` removes exactly logical element `pos`.
      The state ends at the boundary exactly when it started there, or when
      logical 0 was erased while the front was the last slot. */
  lemma EraseView<T>(r: Ring<T>, pos: int)
    requires r.Valid() && 0 <= pos < |r.vec|
    ensures Erase(r, pos).Valid()
    ensures Erase(r, pos).View() == r.View()[..pos] + r.View()[pos + 1..]
    ensures Erase(r, pos).AtBoundary() <==>
      |r.vec| >= 2 && (r.AtBoundary() || (r.front == |r.vec| - 1 && pos == 0))
  {
    if r.front + pos < |r.vec| {
      EraseAfterFront(r, pos);
    } else {
      EraseBeforeFront(r, pos);
    }
  }

  /** An erase at logical 0 leaves the front index at the smaller of the
      old front and the new size: `erase(first, last)` from `begin()` is a
      run of these. */
  lemma EraseAtZeroFront<T>(r: Ring<T>)
    requires r.Valid() && |r.vec| > 0
    ensures Erase(r, 0).front == if r.front < |r.vec| - 1 then r.front else |r.vec| - 1
  {
    if r.front < |r.vec| {
      EraseAfterFront(r, 0);
    } else {
      EraseBeforeFront(r, 0);
    }
  }

  lemma EraseAfterFront<T>(r: Ring<T>, pos: int)
    requires r.Valid() && 0 <= pos < |r.vec| && r.front + pos < |r.vec|
    ensures Erase(r, pos).front == r.front
    ensures Erase(r, pos).View() == r.View()[..pos] + r.View()[pos + 1..]
  {
    var n, f, vec := |r.vec|, r.front, r.vec;
    var k := f + pos;
    RingIdxClosedForm(f, pos, n);
    var r' := Erase(r, pos);
    assert r' == Ring(vec[..k] + vec[k + 1..], f);
    assert r'.vec[f..] == vec[f..k] + vec[k + 1..];
    assert r'.vec[..f] == vec[..f];
    assert r.View()[..pos] == vec[f..k];
    assert r.View()[pos + 1..] == vec[k + 1..] + vec[..f];
  }

  lemma EraseBeforeFront<T>(r: Ring<T>, pos: int)
    requires r.Valid() && 0 <= pos < |r.vec| && r.front + pos >= |r.vec|
    ensures Erase(r, pos).front == (if |r.vec| == 1 then 0 else r.front - 1)
    ensures Erase(r, pos).View() == r.View()[..pos] + r.View()[pos + 1..]
  {
    var n, f, vec := |r.vec|, r.front, r.vec;
    var k := f + pos - n;
    RingIdxClosedForm(f, pos, n);
    var r' := Erase(r, pos);
    assert r'.vec == vec[..k] + vec[k + 1..];
    if n > 1 {
      assert r'.front == f - 1;
      assert r'.vec[f - 1..] == vec[f..];
      assert r'.vec[..f - 1] == vec[..k] + vec[k + 1..f];
      assert r.View()[..pos] == vec[f..] + vec[..k];
      assert r.View()[pos + 1..] == vec[k + 1..f];
    }
  }

  /** `s` rotated left by `d` places, `d` taken modulo the length. */
  function Rotated<T>(s: seq<T>, d: int): (t: seq<T>)
    ensures |t| == |s|
  {
    if |s| == 0 then [] else s[d % |s|..] + s[..d % |s|]
  }

  /** Element `i` of a rotation is element `i + d` (modulo the length). */
  lemma RotatedAt<T>(s: seq<T>, d: int, i: int)
    requires 0 <= i < |s|
    ensures Rotated(s, d)[i] == s[(i + d) % |s|]
  {
    var n := |s|;
    var a := d % n;
    ModAddMultiple(i + a, d / n, n);
    assert i + d == i + a + (d / n) * n;
    ModBelowTwoTurns(i + a, n);
  }

  /** Adding whole multiples of `n` does not change the remainder. */
  lemma ModAddMultiple(x: int, q: int, n: int)
    requires n > 0
    ensures (x + q * n) % n == x % n
  {
    var r := x % n;
    assert x == (x / n) * n + r;
    assert x + q * n == (x / n + q) * n + r;
    ModUnique(x + q * n, n, x / n + q, r);
  }

  /** Moving the front by `d` slots (modulo the size) rotates the logical
      sequence left by `d`. */
  lemma RotateView<T>(r: Ring<T>, d: int, t: int)
    requires r.Valid() && |r.vec| > 0 && t == (r.front + d) % |r.vec|
    ensures Ring(r.vec, t).View() == Rotated(r.View(), d)
  {
    var n, a := |r.vec|, d % |r.vec|;
    var v := r.View();
    assert Rotated(v, d) == v[a..] + v[..a];
    RotatedFront(r.front, d, n);
    assert t == if r.front + a < n then r.front + a else r.front + a - n;
    RotateTwice(r.vec, r.front, a);
  }

  /** The new front slot after a rotation by `d`, without the remainder. */
  lemma RotatedFront(f: int, d: int, n: int)
    requires n > 0 && 0 <= f <= n
    ensures (f + d) % n == if f + d % n < n then f + d % n else f + d % n - n
  {
    var a := d % n;
    assert f + d == f + a + (d / n) * n;
    ModAddMultiple(f + a, d / n, n);
    ModBelowTwoTurns(f + a, n);
  }

  /** Rotating a rotation: starting at `f`, then `a` further on. */
  lemma RotateTwice<T>(vec: seq<T>, f: int, a: int)
    requires 0 <= f <= |vec| && 0 <= a < |vec|
    ensures var t := if f + a < |vec| then f + a else f + a - |vec|;
            var v := vec[f..] + vec[..f];
            vec[t..] + vec[..t] == v[a..] + v[..a]
  {
    var n := |vec|;
    var v := vec[f..] + vec[..f];
    if f + a < n {
      var t := f + a;
      assert v[a..] == vec[t..] + vec[..f];
      assert v[..a] == vec[f..t];
    } else {
      var t := f + a - n;
      assert v[a..] == vec[t..f];
      assert v[..a] == vec[f..] + vec[..t];
    }
  }

  /** `change_front_index(index)` rotates the logical sequence so that old
      logical `index` becomes logical 0; the front ends in range. */
  lemma ChangeFrontView<T>(r: Ring<T>, index: int)
    requires r.Valid() && r.Addressable(index)
    ensures ChangeFront(r, index).Valid() && !ChangeFront(r, index).AtBoundary()
    ensures ChangeFront(r, index).View() == Rotated(r.View(), index)
  {
    var n := |r.vec|;
    if n > 0 {
      ModAddMultiple(r.front + index, 1, n);
      RotateView(r, index, ChangeFront(r, index).front);
    }
  }

  /** `increment_front_index(amount)` rotates the logical sequence left by
      `amount`; the front ends in range. */
  lemma IncrementView<T>(r: Ring<T>, amount: nat)
    requires r.Valid()
    ensures Ring(r.vec, IncrementedFront(r.front, amount, |r.vec|)).View() == Rotated(r.View(), amount)
    ensures |r.vec| > 0 ==> IncrementedFront(r.front, amount, |r.vec|) < |r.vec|
  {
    if |r.vec| > 0 {
      RotateView(r, amount, IncrementedFront(r.front, amount, |r.vec|));
    }
  }

  /** `decrement_front_index(amount)` rotates the logical sequence right by
      `amount`. */
  lemma DecrementView<T>(r: Ring<T>, amount: nat)
    requires r.Valid()
    ensures Ring(r.vec, DecrementedFront(r.front, amount, |r.vec|)).View() == Rotated(r.View(), -(amount as int))
  {
    if |r.vec| == 0 {
      DecrementEmpty(r, amount);
    } else if r.front - amount == |r.vec| {
      DecrementByNothingAtBoundary(r);
    } else {
      DecrementRotates(r, amount, DecrementedFront(r.front, amount, |r.vec|));
    }
  }

  lemma DecrementEmpty<T>(r: Ring<T>, amount: nat)
    requires r.Valid() && |r.vec| == 0
    ensures Ring(r.vec, DecrementedFront(r.front, amount, |r.vec|)).View() == Rotated(r.View(), -(amount as int))
  {
    assert Ring(r.vec, DecrementedFront(r.front, amount, |r.vec|)).View() == [];
  }

  lemma DecrementRotates<T>(r: Ring<T>, amount: nat, f: int)
    requires r.Valid() && |r.vec| > 0 && r.front - amount != |r.vec|
    requires f == DecrementedFront(r.front, amount, |r.vec|)
    ensures Ring(r.vec, f).View() == Rotated(r.View(), -(amount as int))
  {
    DecrementedFrontIsRemainder(r.front, amount, |r.vec|);
    RotateView(r, -(amount as int), f);
  }

  lemma DecrementByNothingAtBoundary<T>(r: Ring<T>)
    requires r.AtBoundary()
    ensures Ring(r.vec, DecrementedFront(r.front, 0, |r.vec|)).View() == Rotated(r.View(), 0)
  {
    var v := r.View();
    assert v == r.vec;
    assert Rotated(v, 0) == v[0..] + v[..0];
  }

  /** Unless it leaves the front at the boundary untouched, the loop in
      `decrement_front_index` computes the Euclidean remainder. */
  lemma DecrementedFrontIsRemainder(front: int, amount: nat, size: nat)
    requires size > 0 && 0 <= front <= size && front - amount != size
    ensures DecrementedFront(front, amount, size) == (front - amount) % size
  {
    if front - amount >= 0 {
      ModBelowTwoTurns(front - amount, size);
    }
  }

  // ---------------------------------------------------------------------
  // The boundary state after `erase`

  /** `erase` followed by `change_front_index(0)`, which brings a front
      left at the boundary back to slot 0 without moving any element. */
  function EraseKeepingFrontInRange<T>(r: Ring<T>, pos: int): (r': Ring<T>)
    requires r.Valid() && |r.vec| > 0 && r.Addressable(pos)
    ensures |r'.vec| == |r.vec| - 1
  {
    ChangeFront(Erase(r, pos), 0)
  }

  /** The corrected erase removes the same element and never leaves the
      boundary state behind. */
  lemma EraseKeepingFrontInRangeView<T>(r: Ring<T>, pos: int)
    requires r.Valid() && 0 <= pos < |r.vec|
    ensures EraseKeepingFrontInRange(r, pos).Valid()
    ensures !EraseKeepingFrontInRange(r, pos).AtBoundary()
    ensures EraseKeepingFrontInRange(r, pos).View() == r.View()[..pos] + r.View()[pos + 1..]
  {
    var e := Erase(r, pos);
    EraseView(r, pos);
    ChangeFrontView(e, 0);
    if |e.vec| > 0 {
      assert Rotated(e.View(), 0) == e.View();
    }
  }

  /** After the corrected erase, inserting at `end()` appends. */
  lemma AppendAfterErase<T>(r: Ring<T>, pos: int, vals: seq<T>)
    requires r.Valid() && 0 <= pos < |r.vec|
    ensures Insert(EraseKeepingFrontInRange(r, pos), |r.vec| - 1, vals).View() ==
      r.View()[..pos] + r.View()[pos + 1..] + vals
  {
    var e := EraseKeepingFrontInRange(r, pos);
    EraseKeepingFrontInRangeView(r, pos);
    InsertView(e, |r.vec| - 1, vals);
    assert e.View()[..|e.vec|] == e.View();
  }

  /** As written, `erase(begin())` with the front in the last slot leaves
      the boundary state, and a following `insert(end(), 9)` puts 9 at the
      front instead of the back. */
  lemma EraseThenAppendAsWritten()
    ensures Erase(Ring([1, 2, 3], 2), 0).AtBoundary()
    ensures Ring([1, 2, 3], 2).View() == [3, 1, 2]
    ensures Insert(Erase(Ring([1, 2, 3], 2), 0), 2, [9]).View() == [9, 1, 2]
  {
    var r := Ring([1, 2, 3], 2);
    var e := Erase(r, 0);
    RingIdxClosedForm(2, 0, 3);
    assert e == Ring([1, 2], 2);
    InsertView(e, 2, [9]);
  }
}
