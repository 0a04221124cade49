/** `Ringbuffer<T>` as a mutable object: a vector and a front index that the
    methods update in place. Each method is tied to the matching transition
    of `RingIndex.Ring`, and states what it does to `Contents()`, the logical
    sequence from front to back. */
module Ringbuffers {
  import opened CppArith
  import opened RingIndex

  class Ringbuffer<T> {
    /** The underlying `std::vector<T>`. */
    var vec: seq<T>
    /** `front_index`: the vector slot holding logical index 0. */
    var frontIndex: int

    function State(): Ring<T>
      reads this
    {
      Ring(vec, frontIndex)
    }

    predicate Valid()
      reads this
    {
      State().Valid()
    }

    /** The logical sequence, front first. */
    function Contents(): seq<T>
      reads this
      requires Valid()
    {
      State().View()
    }

    /** `Ringbuffer()`: no elements. */
    constructor Empty()
      ensures Valid() && frontIndex == 0 && Contents() == []
    {
      vec := [];
      frontIndex := 0;
    }

    /** `Ringbuffer(size, val)`: `size` copies of `val` (the default-value
        constructor is this with `T`'s default). */
    constructor Fill(size: nat, val: T)
      ensures Valid() && frontIndex == 0
      ensures Contents() == seq(size, _ => val)
    {
      var copies := seq(size, _ => val);
      vec := copies;
      frontIndex := 0;
      ViewAtFrontZero(copies);
    }

    /** The range and initializer-list constructors: the given elements in order. */
    constructor FromSeq(s: seq<T>)
      ensures Valid() && frontIndex == 0 && Contents() == s
    {
      vec := s;
      frontIndex := 0;
      ViewAtFrontZero(s);
    }

    /** `size()`. */
    function Size(): (n: nat)
      reads this
      requires Valid()
      ensures n == |Contents()|
    {
      |vec|
    }

    /** `at(index)` and `operator[]`: any index from `-size` on reads the
        logical element at that index modulo the size. */
    function At(index: int): (x: T)
      reads this
      requires Valid() && |vec| > 0 && State().Addressable(index)
      ensures x == Contents()[index % |vec|]
    {
      RingIdxWraps(frontIndex, index, |vec|);
      ViewAt(State(), index % |vec|);
      vec[RingIdxToVecIdx(frontIndex, index, |vec|)]
    }

    /** `front()`. */
    function Front(): (x: T)
      reads this
      requires Valid() && |vec| > 0
      ensures x == Contents()[0]
    {
      At(0)
    }

    /** `back()`, read through `rbegin()` at logical `size - 1`. */
    function Back(): (x: T)
      reads this
      requires Valid() && |vec| > 0
      ensures x == Contents()[|vec| - 1]
    {
      ModBelowTwoTurns(|vec| - 1, |vec|);
      At(|vec| - 1)
    }

    /** `at(index) = v`: assignment through the returned reference. */
    method Assign(index: int, v: T)
      modifies this
      requires Valid() && |vec| > 0 && State().Addressable(index)
      ensures State() == RingIndex.Assign(old(State()), index, v)
      ensures Valid() && Contents() == old(Contents())[index % |vec| := v]
    {
      AssignView(State(), index, v);
      vec := vec[RingIdxToVecIdx(frontIndex, index, |vec|) := v];
    }

    /** `change_front_index(vec_index)`: logical `index` becomes the front. */
    method ChangeFrontIndex(index: int) returns (f: int)
      modifies this
      requires Valid() && State().Addressable(index)
      ensures State() == ChangeFront(old(State()), index) && f == frontIndex
      ensures Valid() && !State().AtBoundary()
      ensures Contents() == Rotated(old(Contents()), index)
    {
      ChangeFrontView(State(), index);
      frontIndex := RingIdxToVecIdx(frontIndex, index, |vec|);
      f := frontIndex;
    }

    /** `increment_front_index(amount)`: the whole logical sequence rotates
        left by `amount`. */
    method IncrementFrontIndex(amount: nat) returns (f: int)
      modifies this
      ensures vec == old(vec) && f == frontIndex
      ensures frontIndex == IncrementedFront(old(frontIndex), amount, |vec|)
      ensures old(Valid()) ==> Valid() && Contents() == Rotated(old(Contents()), amount)
    {
      if old(Valid()) {
        IncrementView(State(), amount);
      }
      if |vec| > 0 {
        frontIndex := frontIndex + amount;
        frontIndex := Rem(frontIndex, |vec|);
      } else {
        frontIndex := 0;
      }
      f := frontIndex;
    }

    /** `decrement_front_index(amount)`: subtract, then add the size until
        the index is no longer negative; the logical sequence rotates right
        by `amount`. */
    method DecrementFrontIndex(amount: nat) returns (f: int)
      modifies this
      ensures vec == old(vec) && f == frontIndex
      ensures frontIndex == DecrementedFront(old(frontIndex), amount, |vec|)
      ensures old(Valid()) ==> Valid() && Contents() == Rotated(old(Contents()), -(amount as int))
    {
      if old(Valid()) {
        DecrementView(State(), amount);
      }
      if |vec| > 0 {
        ghost var n := |vec|;
        ghost var start := frontIndex - amount;
        ghost var turns: nat := 0;
        frontIndex := frontIndex - amount;
        while frontIndex < 0
          invariant vec == old(vec)
          invariant frontIndex == start + turns * n
          invariant start < 0 ==> frontIndex < n
          invariant start >= 0 ==> frontIndex == start
          decreases -frontIndex
        {
          MulSucc(turns, n);
          frontIndex := frontIndex + |vec|;
          turns := turns + 1;
        }
        if start < 0 {
          TurnsGiveRemainder(start, n, turns, frontIndex);
        }
      } else {
        frontIndex := 0;
      }
      f := frontIndex;
    }

    /** `push_front(val)`: on a non-empty buffer `val` becomes the front and
        the old back is overwritten; the size stays the same. */
    method PushFront(val: T)
      modifies this
      requires Valid() && |vec| > 0
      ensures State() == RingIndex.PushFront(old(State()), val)
      ensures Valid() && !State().AtBoundary()
      ensures Contents() == [val] + old(Contents())[..|vec| - 1]
    {
      PushFrontView(State(), val);
      var _ := DecrementFrontIndex(1);
      Assign(0, val);
    }

    /** `push_back(val)`: on a non-empty buffer `val` becomes the back and
        the old front is overwritten; the size stays the same. */
    method PushBack(val: T)
      modifies this
      requires Valid() && |vec| > 0
      ensures State() == RingIndex.PushBack(old(State()), val)
      ensures Valid() && !State().AtBoundary()
      ensures Contents() == old(Contents())[1..] + [val]
    {
      PushBackView(State(), val);
      var _ := IncrementFrontIndex(1);
      Assign(|vec| - 1, val);
    }

    /** `insert(position, first, last)`: the range form, and the body shared
        by every insert and emplace. */
    method InsertRange(pos: int, vals: seq<T>)
      modifies this
      requires Valid() && State().Addressable(pos)
      ensures State() == RingIndex.Insert(old(State()), pos, vals)
      ensures Valid() && |vec| == old(|vec|) + |vals|
      ensures 0 <= pos <= old(|vec|) ==> (
        !State().AtBoundary() &&
        Contents() == if old(State().AtBoundary()) && pos == old(|vec|) then vals + old(Contents())
                      else old(Contents())[..pos] + vals + old(Contents())[pos..])
    {
      if 0 <= pos <= |vec| {
        InsertView(State(), pos, vals);
      }
      var oldEnd := |vec|;
      var k := RingIdxToVecIdx(frontIndex, pos, |vec|);
      vec := vec[..k] + vals + vec[k..];
      if frontIndex > k || pos == oldEnd {
        var _ := IncrementFrontIndex(|vals|);
      }
    }

    /** `insert(position, val)` (and `emplace(position, args)`, whose body
        is the same): returns an iterator at `pos`. */
    method Insert(pos: int, val: T) returns (it: int)
      modifies this
      requires Valid() && State().Addressable(pos)
      ensures State() == RingIndex.Insert(old(State()), pos, [val]) && it == pos
      ensures 0 <= pos <= old(|vec|) ==> (
        Valid() && !State().AtBoundary() &&
        Contents() == if old(State().AtBoundary()) && pos == old(|vec|) then [val] + old(Contents())
                      else old(Contents())[..pos] + [val] + old(Contents())[pos..])
    {
      InsertRange(pos, [val]);
      it := pos;
    }

    /** `insert(position, n, val)`: `count` copies of `val`. */
    method InsertFill(pos: int, count: nat, val: T)
      modifies this
      requires Valid() && State().Addressable(pos)
      ensures State() == RingIndex.Insert(old(State()), pos, seq(count, _ => val))
      ensures 0 <= pos <= old(|vec|) && !old(State().AtBoundary()) ==> (
        Valid() &&
        Contents() == old(Contents())[..pos] + seq(count, _ => val) + old(Contents())[pos..])
    {
      InsertRange(pos, seq(count, _ => val));
    }

    /** `emplace_front(args)`: the new element becomes the front. */
    method EmplaceFront(val: T) returns (it: int)
      modifies this
      requires Valid()
      ensures Valid() && it == 0 && Contents() == [val] + old(Contents())
    {
      it := Insert(0, val);
    }

    /** `emplace_back(args)`: the new element becomes the back, except in the
        boundary state, where it becomes the front. */
    method EmplaceBack(val: T) returns (it: int)
      modifies this
      requires Valid()
      ensures Valid() && it == old(|vec|)
      ensures Contents() == if old(State().AtBoundary()) then [val] + old(Contents())
                            else old(Contents()) + [val]
    {
      it := Insert(|vec|, val);
    }

    /** `erase(position)`: returns an iterator at `pos`. In range it removes
        logical element `pos`; it leaves the boundary state exactly as
        `RingIndex.EraseView` says. */
    method Erase(pos: int) returns (it: int)
      modifies this
      requires Valid() && |vec| > 0 && State().Addressable(pos)
      ensures State() == RingIndex.Erase(old(State()), pos) && it == pos
      ensures Valid() && |vec| == old(|vec|) - 1
      ensures 0 <= pos < old(|vec|) ==>
        Contents() == old(Contents())[..pos] + old(Contents())[pos + 1..] &&
        (State().AtBoundary() <==> (old(|vec|) >= 2 &&
          (old(State().AtBoundary()) || (old(frontIndex) == old(|vec|) - 1 && pos == 0))))
    {
      if 0 <= pos < |vec| {
        EraseView(State(), pos);
      }
      var k := RingIdxToVecIdx(frontIndex, pos, |vec|);
      vec := vec[..k] + vec[k + 1..];
      if frontIndex > k {
        var _ := DecrementFrontIndex(1);
      }
      it := pos;
    }

    /** `erase` followed by `change_front_index(0)`: removes the same element
        and never leaves the front index at the size. */
    method EraseKeepingFrontInRange(pos: int) returns (it: int)
      modifies this
      requires Valid() && |vec| > 0 && State().Addressable(pos)
      ensures State() == RingIndex.EraseKeepingFrontInRange(old(State()), pos) && it == pos
      ensures Valid() && !State().AtBoundary()
      ensures 0 <= pos < old(|vec|) ==>
        Contents() == old(Contents())[..pos] + old(Contents())[pos + 1..]
    {
      if 0 <= pos < |vec| {
        EraseKeepingFrontInRangeView(State(), pos);
      }
      it := Erase(pos);
      var _ := ChangeFrontIndex(0);
    }

    /** `erase(first, last)`: erases at `first` once per position in
        `[first, last)`, and returns an iterator at `first`. */
    method EraseRange(first: int, last: int) returns (it: int)
      modifies this
      requires Valid() && 0 <= first <= last <= |vec|
      ensures Valid() && it == first
      ensures Contents() == old(Contents())[..first] + old(Contents())[last..]
      ensures 1 <= first ==> (State().AtBoundary() <==> old(State().AtBoundary()) && |vec| > 0)
      ensures first == 0 ==>
        frontIndex == (if old(frontIndex) < |vec| then old(frontIndex) else |vec|) &&
        (State().AtBoundary() <==> 0 < old(|vec|) - last <= old(frontIndex))
    {
      ghost var wasAtBoundary := State().AtBoundary();
      var i := first;
      while i != last
        invariant first <= i <= last
        invariant Valid() && |vec| == old(|vec|) - (i - first)
        invariant Contents() == old(Contents())[..first] + old(Contents())[i..]
        invariant 1 <= first ==> (State().AtBoundary() <==> wasAtBoundary && |vec| > 0)
        invariant first == 0 ==>
          frontIndex == (if old(frontIndex) < |vec| then old(frontIndex) else |vec|)
        decreases last - i
      {
        ghost var before := Contents();
        if first == 0 {
          RingIndex.EraseAtZeroFront(State());
        }
        var _ := Erase(first);
        assert before[first + 1..] == old(Contents())[i + 1..];
        i := i + 1;
      }
      it := first;
    }

    /** `pop_front()`: removes and returns the front. */
    method PopFront() returns (val: T)
      modifies this
      requires Valid() && |vec| > 0
      ensures Valid() && val == old(Contents())[0] && Contents() == old(Contents())[1..]
      ensures State() == RingIndex.Erase(old(State()), 0)
      ensures State().AtBoundary() <==>
        old(|vec|) >= 2 && (old(State().AtBoundary()) || old(frontIndex) == old(|vec|) - 1)
    {
      val := Front();
      var _ := Erase(0);
    }

    /** `pop_back()`: removes and returns the back, erasing at `end() - 1`. */
    method PopBack() returns (val: T)
      modifies this
      requires Valid() && |vec| > 0
      ensures Valid() && val == old(Contents())[|old(vec)| - 1]
      ensures Contents() == old(Contents())[..|old(vec)| - 1]
      ensures State() == RingIndex.Erase(old(State()), old(|vec|) - 1)
      ensures State().AtBoundary() <==> old(|vec|) >= 2 && old(State().AtBoundary())
    {
      val := Back();
      var _ := Erase(|vec| - 1);
    }

    /** `clear()`. */
    method Clear()
      modifies this
      ensures Valid() && frontIndex == 0 && Contents() == []
    {
      frontIndex := 0;
      vec := [];
    }

    /** `begin()`: a forward iterator at logical 0. */
    method Begin() returns (it: Iterator<T>)
      ensures fresh(it) && it.buffer == this && !it.reverse && it.index == 0
    {
      it := new Iterator(this, false, 0);
    }

    /** `end()`: a forward iterator at logical `size`. */
    method End() returns (it: Iterator<T>)
      ensures fresh(it) && it.buffer == this && !it.reverse && it.index == |vec|
    {
      it := new Iterator(this, false, |vec|);
    }

    /** `rbegin()`: a reverse iterator at logical `size - 1`. */
    method RBegin() returns (it: Iterator<T>)
      ensures fresh(it) && it.buffer == this && it.reverse && it.index == |vec| - 1
    {
      it := new Iterator(this, true, |vec| - 1);
    }

    /** `rend()`: a reverse iterator at logical `-1`. */
    method REnd() returns (it: Iterator<T>)
      ensures fresh(it) && it.buffer == this && it.reverse && it.index == -1
    {
      it := new Iterator(this, true, -1);
    }

    /** `end() - begin()` as written, beside the distance it is meant to be. */
    method EndMinusBegin() returns (asWritten: int, distance: int)
      requires Valid()
      ensures asWritten == 0
      ensures distance == |Contents()|
    {
      var e := End();
      var b := Begin();
      asWritten := e.Difference(b);
      distance := e.Distance(b);
    }
  }

  /** `iterator` and `reverse_iterator` (the `const_` variants do the same
      arithmetic): a buffer and a logical index; a reverse iterator steps
      towards lower indices. */
  class Iterator<T> {
    const buffer: Ringbuffer<T>
    const reverse: bool
    var index: int

    constructor (buffer: Ringbuffer<T>, reverse: bool, index: int)
      ensures this.buffer == buffer && this.reverse == reverse && this.index == index
    {
      this.buffer := buffer;
      this.reverse := reverse;
      this.index := index;
    }

    /** The change of index that `++` makes. */
    function Step(): (s: int)
      ensures s == 1 || s == -1
      ensures s == -1 <==> reverse
    {
      if reverse then -1 else 1
    }

    /** `operator*`: the element at the iterator's logical index. */
    function Deref(): (x: T)
      reads this, buffer
      requires buffer.Valid() && |buffer.vec| > 0 && buffer.State().Addressable(index)
      ensures x == buffer.Contents()[index % |buffer.vec|]
    {
      buffer.At(index)
    }

    /** Prefix `++`: advances this iterator and returns a copy of it. */
    method PrefixIncrement() returns (copy: Iterator<T>)
      modifies this
      ensures index == old(index) + Step()
      ensures fresh(copy) && copy.buffer == buffer && copy.reverse == reverse && copy.index == index
    {
      index := index + Step();
      copy := new Iterator(buffer, reverse, index);
    }

    /** Postfix `++`: returns an advanced copy and leaves this iterator where
        it was. */
    method PostfixIncrement() returns (copy: Iterator<T>)
      ensures fresh(copy) && copy.buffer == buffer && copy.reverse == reverse
      ensures copy.index == index + Step()
    {
      copy := new Iterator(buffer, reverse, index + Step());
    }

    /** Prefix `--`: moves this iterator back and returns a copy of it. */
    method PrefixDecrement() returns (copy: Iterator<T>)
      modifies this
      ensures index == old(index) - Step()
      ensures fresh(copy) && copy.buffer == buffer && copy.reverse == reverse && copy.index == index
    {
      index := index - Step();
      copy := new Iterator(buffer, reverse, index);
    }

    /** Postfix `--`: returns a copy moved back and leaves this iterator
        where it was. */
    method PostfixDecrement() returns (copy: Iterator<T>)
      ensures fresh(copy) && copy.buffer == buffer && copy.reverse == reverse
      ensures copy.index == index - Step()
    {
      copy := new Iterator(buffer, reverse, index - Step());
    }

    /** `+= offset`: `offset` steps forward. */
    method AddAssign(offset: int)
      modifies this
      ensures index == old(index) + Step() * offset
    {
      index := index + Step() * offset;
    }

    /** `-= offset`: `offset` steps back. */
    method SubAssign(offset: int)
      modifies this
      ensures index == old(index) - Step() * offset
    {
      index := index - Step() * offset;
    }

    /** `+ offset`: a copy `offset` steps forward. */
    method Plus(offset: int) returns (other: Iterator<T>)
      ensures fresh(other) && other.buffer == buffer && other.reverse == reverse
      ensures other.index == index + Step() * offset
    {
      other := new Iterator(buffer, reverse, index + Step() * offset);
    }

    /** `- offset`: a copy `offset` steps back. */
    method Minus(offset: int) returns (other: Iterator<T>)
      ensures fresh(other) && other.buffer == buffer && other.reverse == reverse
      ensures other.index == index - Step() * offset
    {
      other := new Iterator(buffer, reverse, index - Step() * offset);
    }

    /** `this - other` as written: the index difference is taken only when
        `other` is this very object, where it is 0, so the result is always 0. */
    function Difference(other: Iterator<T>): (d: int)
      reads this, other
      ensures d == 0
    {
      if this == other then (if reverse then other.index - index else index - other.index) else 0
    }

    /** The number of `++` steps that take `other` to this iterator. */
    function Distance(other: Iterator<T>): (d: int)
      reads this, other
      requires other.reverse == reverse
      ensures other.index + Step() * d == index
    {
      if reverse then other.index - index else index - other.index
    }

    /** `==`: compares logical indices only, never the buffers. */
    function Equals(other: Iterator<T>): (b: bool)
      reads this, other
      ensures b <==> index == other.index
    {
      index == other.index
    }

    /** `!=`. */
    function NotEquals(other: Iterator<T>): (b: bool)
      reads this, other
      ensures b <==> !Equals(other)
    {
      !(index == other.index)
    }
  }
  lemma MulSucc(k: nat, n: nat)
    ensures (k + 1) * n == k * n + n
  {
  }

  /** Adding whole turns until the index lands in `[0, n)` computes the
      Euclidean remainder. */
  lemma TurnsGiveRemainder(start: int, n: nat, turns: nat, f: int)
    requires 0 < n && 0 <= f < n && f == start + turns * n
    ensures f == start % n
  {
    assert start == (-(turns as int)) * n + f by {
      assert (-(turns as int)) * n == -(turns * n);
    }
    ModUnique(start, n, -(turns as int), f);
  }
}
