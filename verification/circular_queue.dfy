/** The bounded FIFO of src/lib/inc/circular_queue.h, over a buffer used as a ring. */
module CircularQueues {
  import opened Arith
  import opened Options

  function Pushed<T>(q: seq<T>, capacity: nat, x: T): seq<T> {
    if |q| < capacity then q + [x] else q
  }

  /** The place after `p`, which is -1 in an empty queue. */
  function Next(p: int, capacity: nat): int
    requires capacity > 0
  {
    (p + 1) % capacity
  }

  lemma NextWraps(p: int, capacity: nat)
    requires capacity > 0 && -1 <= p < capacity
    ensures Next(p, capacity) == if p + 1 == capacity then 0 else p + 1
  {
    DivModUnique(p + 1, capacity, if p + 1 == capacity then 1 else 0, if p + 1 == capacity then 0 else p + 1);
  }

  ghost predicate Placed(capacity: nat, front: int, rear: int) {
    capacity > 0 && -1 <= front < capacity && -1 <= rear < capacity && (front == -1 <==> rear == -1)
  }

  /** The elements from the oldest to the newest. */
  ghost function Ring<T>(buf: seq<T>, front: int, rear: int): seq<T>
    requires Placed(|buf|, front, rear)
  {
    if front == -1 then []
    else if front <= rear then buf[front..rear + 1]
    else buf[front..] + buf[..rear + 1]
  }

  lemma RingFull<T>(buf: seq<T>, front: int, rear: int)
    requires Placed(|buf|, front, rear)
    ensures |Ring(buf, front, rear)| <= |buf|
    ensures Next(rear, |buf|) == front <==> |Ring(buf, front, rear)| == |buf|
    ensures front == -1 <==> Ring(buf, front, rear) == []
  {
    NextWraps(rear, |buf|);
  }

  lemma RingPush<T>(buf: seq<T>, front: int, rear: int, x: T)
    requires Placed(|buf|, front, rear) && Next(rear, |buf|) != front
    ensures var f, r := if front == -1 then 0 else front, Next(rear, |buf|);
            Placed(|buf|, f, r) && Ring(buf[r := x], f, r) == Ring(buf, front, rear) + [x]
  {
    NextWraps(rear, |buf|);
  }

  lemma RingPop<T>(buf: seq<T>, front: int, rear: int)
    requires Placed(|buf|, front, rear) && front != -1
    ensures var f, r := if front == rear then -1 else Next(front, |buf|), if front == rear then -1 else rear;
            Placed(|buf|, f, r) && Ring(buf, front, rear) == [buf[front]] + Ring(buf, f, r)
  {
    NextWraps(front, |buf|);
  }

  class CircularQueue<T(0)> {
    const buf: array<T>
    /** Both are -1 when the queue is empty. */
    var front: int
    var rear: int

    ghost predicate Valid()
      reads this
    {
      Placed(buf.Length, front, rear)
    }

    ghost function Contents(): seq<T>
      requires Valid()
      reads this, buf
    {
      Ring(buf[..], front, rear)
    }

    constructor (capacity: nat)
      requires capacity > 0
      ensures Valid() && fresh(buf) && buf.Length == capacity && Contents() == []
    {
      buf := new T[capacity];
      front, rear := -1, -1;
    }

    predicate IsFull()
      requires Valid()
      reads this
    {
      Next(rear, buf.Length) == front
    }

    predicate IsEmpty()
      requires Valid()
      reads this
    {
      front == -1
    }

    /** Appends `x`, or refuses it when the buffer is full. */
    method Push(x: T) returns (ok: bool)
      requires Valid()
      modifies this, buf
      ensures Valid() && ok == (|old(Contents())| < buf.Length)
      ensures Contents() == Pushed(old(Contents()), buf.Length, x)
    {
      hide Ring, Next;
      RingFull(buf[..], front, rear);
      ok := !IsFull();
      if ok {
        RingPush(buf[..], front, rear, x);
        if front == -1 {
          front := 0;
        }
        rear := Next(rear, buf.Length);
        buf[rear] := x;
      }
    }

    /** Removes the oldest element. */
    method Pop() returns (r: Option<T>)
      requires Valid()
      modifies this
      ensures Valid()
      ensures r.None? <==> old(Contents()) == []
      ensures r.None? ==> Contents() == []
      ensures r.Some? ==> old(Contents()) == [r.value] + Contents()
    {
      hide Ring, Next;
      RingFull(buf[..], front, rear);
      if IsEmpty() {
        return None;
      }
      RingPop(buf[..], front, rear);
      r := Some(buf[front]);
      if front == rear {
        front, rear := -1, -1;
      } else {
        front := Next(front, buf.Length);
      }
    }
  }
}
