/** The critical sections of blocking_queue_push and blocking_queue_pop on the
    array itself.  Between lock and unlock no other thread touches the queue, so a
    section runs the ring steps of BlockingQueue.dfy one after the other. */
module FdQueue {
  import opened BlockingQueue

  class Queue {
    const size: nat
    const fd: array<int>
    var front: nat
    var rear: nat
    var used: nat

    ghost function View(): Ring
      reads this, fd
    {
      Ring(size, fd[..], front, rear, used)
    }

    ghost predicate Valid()
      reads this, fd
    {
      InBounds(View()) && RingPhase(View(), PIdle)
    }

    /** The descriptors in the queue, oldest first. */
    ghost function Items(): seq<int>
      reads this, fd
      requires Valid()
    {
      BlockingQueue.Queue(View(), PIdle)
    }

    /** blocking_queue_init */
    constructor (size: nat)
      ensures Valid() && fresh(fd) && View() == Ring(size, seq(size, _ => 0), 0, 0, 0) && Items() == []
    {
      this.size := size;
      fd := new int[size](_ => 0);
      front, rear, used := 0, 0, 0;
    }

    /** Lines 40-46, behind the wait loop. */
    method PushLocked(x: int)
      requires Valid() && used < size
      modifies this, fd
      ensures Valid() && Items() == old(Items()) + [x]
      ensures var r := Store(old(View()), x);
        View() == r.(rear := Wrap(r.rear, r.size), used := r.used + 1)
    {
      ghost var r0 := View();
      PushSteps(r0, x);
      fd[rear] := x;
      ghost var r1 := View();
      assert r1 == Store(r0, x);
      PushSteps(r1, x);
      rear := rear + 1;
      if rear == size { rear := 0; }
      ghost var r2 := View();
      assert r2 == r1.(rear := Wrap(r1.rear, r1.size));
      PushSteps(r2, x);
      used := used + 1;
      assert View() == r2.(used := r2.used + 1);
    }

    /** Lines 62-68, behind the wait loop. */
    method PopLocked() returns (x: int)
      requires Valid() && used > 0
      modifies this
      ensures Valid() && old(Items()) == [x] + Items()
      ensures x == Load(old(View()))
      ensures var r := old(View());
        View() == r.(front := Wrap(r.front, r.size), used := r.used - 1)
    {
      ghost var r0 := View();
      LoadStep(r0);
      x := fd[front];
      AdvanceFrontStep(r0, x);
      front := front + 1;
      if front == size { front := 0; }
      ghost var r1 := View();
      assert r1 == r0.(front := Wrap(r0.front, r0.size));
      CountDownStep(r1, x);
      used := used - 1;
      assert View() == r1.(used := r1.used - 1);
    }
  }
}
