/** The circular queue of os_day6/circular_queue.c: one slot of the array always stays unused. */
module RingQueue {

  const BUFFER_SIZE := 5

  datatype Ring = Ring(buffer: seq<int>, front: nat, rear: nat)
  {
    predicate Valid() {
      |buffer| == BUFFER_SIZE && front < BUFFER_SIZE && rear < BUFFER_SIZE
    }

    predicate IsFull() {
      (rear + 1) % BUFFER_SIZE == front
    }

    predicate IsEmpty() {
      front == rear
    }

    function Length(): nat
      requires Valid()
    {
      (rear - front + BUFFER_SIZE) % BUFFER_SIZE
    }

    /** The items from front to rear, around the end of the array. */
    function Contents(): (items: seq<int>)
      requires Valid()
      ensures |items| == Length()
    {
      seq(Length(), i requires 0 <= i < Length() => buffer[(front + i) % BUFFER_SIZE])
    }

    function Enqueue(item: int): Ring
      requires Valid()
    {
      Ring(buffer[rear := item], front, (rear + 1) % BUFFER_SIZE)
    }

    function Dequeue(): Ring
      requires Valid()
    {
      Ring(buffer, (front + 1) % BUFFER_SIZE, rear)
    }
  }

  const EMPTY_RING := Ring([0, 0, 0, 0, 0], 0, 0)

  /** Full and empty are told apart because a full queue holds one item less than the array. */
  lemma LengthMeaning(r: Ring)
    requires r.Valid()
    ensures r.IsEmpty() <==> r.Contents() == []
    ensures r.IsFull() <==> |r.Contents()| == 4
    ensures |r.Contents()| <= 4
  {
  }

  /** Where the slots from front on lie in the array. */
  lemma SlotsApart(front: nat, rear: nat, i: nat)
    requires front < BUFFER_SIZE && rear < BUFFER_SIZE
    ensures var n := (rear - front + BUFFER_SIZE) % BUFFER_SIZE;
            && (i < n ==> (front + i) % BUFFER_SIZE != rear)
            && (front + n) % BUFFER_SIZE == rear
  {
  }

  lemma RearMoves(front: nat, rear: nat)
    requires front < BUFFER_SIZE && rear < BUFFER_SIZE
    ensures var n, next := (rear - front + BUFFER_SIZE) % BUFFER_SIZE, (rear + 1) % BUFFER_SIZE;
            (next - front + BUFFER_SIZE) % BUFFER_SIZE == if next == front then 0 else n + 1
  {
  }

  lemma FrontMoves(front: nat, rear: nat)
    requires front < BUFFER_SIZE && rear < BUFFER_SIZE
    ensures var n, next := (rear - front + BUFFER_SIZE) % BUFFER_SIZE, (front + 1) % BUFFER_SIZE;
            (rear - next + BUFFER_SIZE) % BUFFER_SIZE == if rear == front then BUFFER_SIZE - 1 else n - 1
  {
  }

  lemma NextIndex(front: nat, i: nat)
    ensures ((front + 1) % BUFFER_SIZE + i) % BUFFER_SIZE == (front + i + 1) % BUFFER_SIZE
  {
  }

  lemma EnqueueAt(r: Ring, item: int, i: nat)
    requires r.Valid() && r.Enqueue(item).Valid() && i < r.Enqueue(item).Length() && i <= r.Length()
    ensures r.Enqueue(item).Contents()[i] == if i < r.Length() then r.Contents()[i] else item
  {
    SlotsApart(r.front, r.rear, i);
  }

  lemma DequeueAt(r: Ring, i: nat)
    requires r.Valid() && r.Dequeue().Valid() && i < r.Dequeue().Length() && i + 1 < r.Length()
    ensures r.Dequeue().Contents()[i] == r.Contents()[i + 1]
  {
    NextIndex(r.front, i);
  }

  /** Enqueue appends, unless the queue is full: then everything in it is lost. */
  lemma EnqueueMeaning(r: Ring, item: int)
    requires r.Valid()
    ensures r.Enqueue(item).Valid()
    ensures r.Enqueue(item).Contents() == if r.IsFull() then [] else r.Contents() + [item]
  {
    var t := r.Enqueue(item);
    assert t.Length() == if r.IsFull() then 0 else r.Length() + 1 by { RearMoves(r.front, r.rear); }
    var contents, was := t.Contents(), r.Contents();
    if !r.IsFull() {
      forall i | 0 <= i < |contents|
        ensures contents[i] == (was + [item])[i]
      {
        EnqueueAt(r, item, i);
      }
      assert contents == was + [item];
    }
  }

  /** Dequeue takes the first item; from an empty queue it makes a full one of stale items. */
  lemma DequeueMeaning(r: Ring)
    requires r.Valid()
    ensures r.Dequeue().Valid()
    ensures !r.IsEmpty() ==> r.Contents() == [r.buffer[r.front]] + r.Dequeue().Contents()
    ensures r.IsEmpty() ==> r.Dequeue().IsFull()
  {
    if !r.IsEmpty() {
      DequeueRest(r);
    }
  }

  lemma DequeueRest(r: Ring)
    requires r.Valid() && !r.IsEmpty()
    ensures r.Contents() == [r.buffer[r.front]] + r.Dequeue().Contents()
  {
    var t := r.Dequeue();
    assert t.Length() == r.Length() - 1 by { FrontMoves(r.front, r.rear); }
    var contents, was := t.Contents(), r.Contents();
    assert was[0] == r.buffer[r.front];
    forall i | 0 <= i < |contents|
      ensures contents[i] == was[i + 1]
    {
      DequeueAt(r, i);
    }
    assert was == [was[0]] + contents;
  }

  class CircularQueue {
    const buffer: array<int>
    var front: nat
    var rear: nat

    ghost predicate Valid()
      reads this, buffer
    {
      Value().Valid()
    }

    ghost function Value(): Ring
      reads this, buffer
    {
      Ring(buffer[..], front, rear)
    }

    constructor ()
      ensures Valid() && Value() == EMPTY_RING && fresh(buffer)
    {
      buffer := new int[BUFFER_SIZE](_ => 0);
      front, rear := 0, 0;
      new;
      assert buffer[..] == [0, 0, 0, 0, 0];
    }

    method IsFull() returns (full: bool)
      requires Valid()
      ensures full <==> |Value().Contents()| == 4
    {
      LengthMeaning(Value());
      full := (rear + 1) % BUFFER_SIZE == front;
    }

    method IsEmpty() returns (empty: bool)
      requires Valid()
      ensures empty <==> Value().Contents() == []
    {
      LengthMeaning(Value());
      empty := front == rear;
    }

    method NoOfFreeSpacesQ() returns (n: int)
      requires Valid()
      ensures n == 4 - |Value().Contents()|
      ensures n >= 0
    {
      LengthMeaning(Value());
      n := (BUFFER_SIZE - 1) - ((rear - front + BUFFER_SIZE) % BUFFER_SIZE);
    }

    method Enqueue(item: int)
      requires Valid()
      modifies this, buffer
      ensures Valid() && Value() == old(Value()).Enqueue(item)
      ensures Value().Contents() == if old(Value()).IsFull() then [] else old(Value()).Contents() + [item]
    {
      EnqueueMeaning(Value(), item);
      buffer[rear] := item;
      rear := (rear + 1) % BUFFER_SIZE;
    }

    method Dequeue() returns (item: int)
      requires Valid()
      modifies this`front
      ensures Valid() && Value() == old(Value()).Dequeue()
      ensures !old(Value()).IsEmpty() ==> old(Value()).Contents() == [item] + Value().Contents()
    {
      DequeueMeaning(Value());
      item := buffer[front];
      front := (front + 1) % BUFFER_SIZE;
    }
  }
}
