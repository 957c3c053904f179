/** The bounded task queue of the thread pool (include/clarisma/thread/ThreadPool.h): a ring buffer
    whose every access happens under the pool's lock. */
module ThreadPools {

  class ThreadPool<Task(0)> {
    const queueSize: nat
    const queue: array<Task>
    var front: nat
    var rear: nat
    var count: nat

    /** The rear is `count` places behind the front, around the ring. */
    ghost predicate Valid()
      reads this
    {
      && queue.Length == queueSize && count <= queueSize
      && (queueSize == 0 ==> front == 0 && rear == 0)
      && (queueSize > 0 ==> front < queueSize && rear == Slot(front, count, queueSize))
    }

    /** The waiting tasks, in the order in which they were posted */
    ghost function Waiting(): (tasks: seq<Task>)
      requires Valid()
      reads this, queue
      ensures |tasks| == count
    {
      seq(count, i requires 0 <= i < count reads this, queue requires Valid() => queue[Slot(front, i, queueSize)])
    }

    constructor (numberOfThreads: nat, size: nat)
      ensures Valid() && Waiting() == [] && fresh(queue)
      ensures queueSize == if size == 0 then numberOfThreads * 4 else size
    {
      queueSize := if size == 0 then numberOfThreads * 4 else size;
      queue := new Task[if size == 0 then numberOfThreads * 4 else size];
      count, front, rear := 0, 0, 0;
    }

    /** A full queue refuses the task and stays as it is; otherwise the task goes last. */
    method TryPost(task: Task) returns (accepted: bool)
      requires Valid()
      modifies this`rear, this`count, queue
      ensures Valid()
      ensures accepted == (|old(Waiting())| < queueSize)
      ensures Waiting() == if accepted then old(Waiting()) + [task] else old(Waiting())
    {
      if count == queueSize {
        return false;
      }
      queue[rear] := task;
      rear := (rear + 1) % queueSize;
      SlotAdvances(front, count, queueSize);
      count := count + 1;
      forall i | 0 <= i < count - 1 ensures Slot(front, i, queueSize) != Slot(front, count - 1, queueSize) {
        SlotsDiffer(front, i, count - 1, queueSize);
      }
      accepted := true;
    }

    /** A worker takes the task that has waited longest. */
    method Take() returns (task: Task)
      requires Valid() && Waiting() != []
      modifies this`front, this`count
      ensures Valid()
      ensures old(Waiting()) == [task] + Waiting()
    {
      task := queue[front];
      var after := (front + 1) % queueSize;
      forall i | 0 <= i < count ensures Slot(after, i, queueSize) == Slot(front, i + 1, queueSize) {
        SlotShifts(front, i, queueSize);
      }
      front := after;
      count := count - 1;
    }
  }

  /** The place `i` behind `front` in a ring of `size` places */
  function Slot(front: nat, i: nat, size: nat): (slot: nat)
    requires front < size && i <= size
    ensures slot < size
  {
    if front + i < size then front + i else front + i - size
  }

  lemma SlotAdvances(front: nat, i: nat, size: nat)
    requires front < size && i < size
    ensures (Slot(front, i, size) + 1) % size == Slot(front, i + 1, size)
  {
    var slot := Slot(front, i, size);
    if slot + 1 == size {
      assert (slot + 1) % size == 0;
    }
  }

  lemma SlotShifts(front: nat, i: nat, size: nat)
    requires front < size && i < size
    ensures Slot((front + 1) % size, i, size) == Slot(front, i + 1, size)
  {
    if front + 1 == size {
      assert (front + 1) % size == 0;
    } else {
      assert (front + 1) % size == front + 1;
    }
  }

  lemma SlotsDiffer(front: nat, i: nat, j: nat, size: nat)
    requires front < size && i < j < size
    ensures Slot(front, i, size) != Slot(front, j, size)
  {
  }
}
