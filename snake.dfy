/** The snake: a ring buffer of cells whose logical element 0 is the head
    and whose last element is the tail. Moving is one `push_front`, so the
    buffer never shifts or allocates while the snake only moves. Iterators
    into the body are given by their logical index. */
module Snakes {
  import opened Geometry
  import opened Ringbuffers
  import RingIndex

  /** The first index from `from` on whose cell is `x`, or `|s|` when no
      later cell is. */
  function FirstMatchFrom(s: seq<Position>, x: Position, from: nat): (i: nat)
    requires from <= |s|
    ensures from <= i <= |s|
    ensures i < |s| ==> s[i] == x
    ensures forall k :: from <= k < i ==> s[k] != x
    decreases |s| - from
  {
    if from == |s| then |s|
    else if s[from] == x then from
    else FirstMatchFrom(s, x, from + 1)
  }

  /** Where the head first reappears further down a non-empty body, or
      the body's length when it does not. */
  function FirstBite(s: seq<Position>): (i: nat)
    requires 0 < |s|
  {
    FirstMatchFrom(s, s[0], 1)
  }

  /** The bite index is the least index past the head holding the head's
      cell, and every body without such a cell is reported as whole. */
  lemma FirstBiteIsLeast(s: seq<Position>, j: nat)
    requires 0 < |s|
    ensures 1 <= FirstBite(s) <= |s|
    ensures FirstBite(s) < |s| ==> s[FirstBite(s)] == s[0]
    ensures 1 <= j < |s| && s[j] == s[0] ==> FirstBite(s) <= j
    ensures FirstBite(s) == |s| <==> forall k :: 1 <= k < |s| ==> s[k] != s[0]
  {
  }

  class Snake {
    const body: Ringbuffer<Position>

    /** The body's buffer never rests with its front index at its size, so
        that inserting at the end appends. */
    predicate Valid()
      reads this, body
    {
      body.Valid() && !body.State().AtBoundary()
    }

    /** The cells from head to tail. */
    function Body(): seq<Position>
      reads this, body
      requires Valid()
    {
      body.Contents()
    }

    /** `Snake(initial_pos, initial_length)`: `initial_length` segments,
        all on `initial_pos`. */
    constructor (initialPos: Position, initialLength: nat)
      ensures Valid() && fresh(body)
      ensures Body() == seq(initialLength, _ => initialPos)
    {
      body := new Ringbuffer<Position>.Fill(initialLength, initialPos);
    }

    /** `length()`. */
    function Length(): (n: nat)
      reads this, body
      requires Valid()
      ensures n == |Body()|
    {
      body.Size()
    }

    /** `head()`. */
    function Head(): (h: Position)
      reads this, body
      requires Valid() && 0 < |Body()|
      ensures h == Body()[0]
    {
      body.Front()
    }

    /** `tail()`. */
    function Tail(): (t: Position)
      reads this, body
      requires Valid() && 0 < |Body()|
      ensures t == Body()[|Body()| - 1]
    {
      body.Back()
    }

    /** Writing through the reference `head()` returns. */
    method SetHead(p: Position)
      modifies body
      requires Valid() && 0 < |Body()|
      ensures Valid() && Body() == old(Body())[0 := p]
    {
      body.Assign(0, p);
    }

    /** `move(new_head_position)`: the new head goes in front, every
        segment moves one place towards the tail, the old tail is dropped. */
    method Move(newHead: Position)
      modifies body
      requires Valid() && 0 < |Body()|
      ensures Valid() && Body() == [newHead] + old(Body())[..|old(Body())| - 1]
    {
      body.PushFront(newHead);
    }

    /** `grow()`: a copy of the tail is inserted at the end. */
    method Grow()
      modifies body
      requires Valid() && 0 < |Body()|
      ensures Valid() && Body() == old(Body()) + [old(Body())[|old(Body())| - 1]]
    {
      var _ := body.Insert(body.Size(), body.Back());
    }

    /** `eat(fruit)`: the fruit is not looked at; the snake grows. */
    method Eat(fruit: Position)
      modifies body
      requires Valid() && 0 < |Body()|
      ensures Valid() && Body() == old(Body()) + [old(Body())[|old(Body())| - 1]]
    {
      Grow();
    }

    /** `bite_off_tail(bite_mark)`: everything from the mark to the end is
        erased; returns the new length. */
    method BiteOffTail(mark: nat) returns (length: nat)
      modifies body
      requires Valid() && mark <= |Body()|
      ensures Valid() && Body() == old(Body())[..mark] && length == mark
    {
      var _ := body.EraseRange(mark, body.Size());
      length := body.Size();
    }

    /** `is_biting_itself()`: scans from the segment after the head to
        the end for the head's cell; reports the first hit, or no hit
        with the end position. */
    method IsBitingItself() returns (hit: bool, mark: nat)
      requires Valid() && 0 < |Body()|
      ensures mark == FirstBite(Body())
      ensures hit <==> mark < |Body()|
    {
      ghost var s := Body();
      var head := body.Front();
      var n := body.Size();
      var i := 1;
      while i != n
        invariant 1 <= i <= n == |s|
        invariant FirstBite(s) == FirstMatchFrom(s, head, i)
        decreases n - i
      {
        RingIndex.ModBelowTwoTurns(i, n);
        var cell := body.At(i);
        if head == cell {
          return true, i;
        }
        i := i + 1;
      }
      return false, n;
    }
  }
}
