// The bounded connection queue of admission.c: a ring of file descriptors behind
// one mutex and two condition variables.
module WorkQueue {
  // `Ring` is the ring itself.  Its methods are the critical sections: one pass from
  // taking the mutex to giving it up again, by returning or by waiting.

  const CAPACITY: int := 64

  datatype PushResult = PushMustWait | PushRefused | PushAccepted
  datatype PopResult = PopMustWait | PopDrained | Popped(fd: int)

  /** What one pass of a push does, told on the queue's contents. */
  function PushPass(queue: seq<int>, shutdown: bool): PushResult {
    if shutdown then PushRefused
    else if |queue| < CAPACITY then PushAccepted
    else PushMustWait
  }

  function PopPass(queue: seq<int>, shutdown: bool): PopResult {
    if queue != [] then Popped(queue[0])
    else if shutdown then PopDrained
    else PopMustWait
  }

  /** The array index of the i-th oldest entry. */
  function Slot(head: int, i: int): int {
    (head + i) % CAPACITY
  }

  class Ring {
    const fds: array<int>
    var head: int
    var tail: int
    var count: int
    var shutdown: bool

    ghost predicate Valid()
      reads this
    {
      && fds.Length == CAPACITY
      && 0 <= head < CAPACITY
      && 0 <= count <= CAPACITY
      && tail == Slot(head, count)
    }

    /** The queued descriptors, oldest first. */
    ghost function Contents(): (q: seq<int>)
      reads this, fds
      requires Valid()
      ensures |q| == count
    {
      seq(count, i requires 0 <= i < count && Valid() reads this, fds => fds[Slot(head, i)])
    }

    constructor ()
      ensures Valid() && Contents() == [] && !shutdown && fresh(fds)
    {
      fds := new int[CAPACITY];
      head, tail, count, shutdown := 0, 0, 0, false;
    }

    /** Stores `fd` behind the newest entry; the shared tail of push and try_push. */
    method Enqueue(fd: int)
      requires Valid() && count < CAPACITY
      modifies this`tail, this`count, fds
      ensures Valid()
      ensures Contents() == old(Contents()) + [fd]
    {
      fds[tail] := fd;
      tail := (tail + 1) % CAPACITY;
      count := count + 1;
      assert forall i :: 0 <= i < old(count) ==> Slot(head, i) != old(tail);
    }

    /** One pass of tee_queue_push: the caller waits on `not_full` when told to. */
    method Push(fd: int) returns (r: PushResult)
      requires Valid()
      modifies this`tail, this`count, fds
      ensures Valid()
      ensures r == PushPass(old(Contents()), shutdown)
      ensures Contents() == if r.PushAccepted? then old(Contents()) + [fd] else old(Contents())
    {
      if count == CAPACITY && !shutdown {
        return PushMustWait;
      }
      if shutdown {
        return PushRefused;
      }
      Enqueue(fd);
      r := PushAccepted;
    }

    /** tee_queue_try_push: never waits. */
    method TryPush(fd: int) returns (rc: int)
      requires Valid()
      modifies this`tail, this`count, fds
      ensures Valid()
      ensures rc == if PushPass(old(Contents()), shutdown).PushAccepted? then 0 else -1
      ensures Contents() == if rc == 0 then old(Contents()) + [fd] else old(Contents())
    {
      if shutdown || count == CAPACITY {
        return -1;
      }
      Enqueue(fd);
      rc := 0;
    }

    /** One pass of tee_queue_pop: the caller waits on `not_empty` when told to. */
    method Pop() returns (r: PopResult)
      requires Valid()
      modifies this`head, this`count
      ensures Valid()
      ensures r == PopPass(old(Contents()), shutdown)
      ensures Contents() == if r.Popped? then old(Contents())[1..] else old(Contents())
    {
      if count == 0 && !shutdown {
        return PopMustWait;
      }
      if count == 0 && shutdown {
        return PopDrained;
      }
      var fd := fds[head];
      head := (head + 1) % CAPACITY;
      count := count - 1;
      assert forall i :: 0 <= i < count ==> Slot(head, i) == Slot(old(head), i + 1);
      r := Popped(fd);
    }

    method Shutdown()
      requires Valid()
      modifies this`shutdown
      ensures Valid() && shutdown && Contents() == old(Contents())
    {
      shutdown := true;
    }
  }
}
