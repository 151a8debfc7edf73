/**
 The routines of threads/scheduler.cc, threads/thread.cc and threads/synch.cc that work on the ready list
 and the wait queues, as code over the linked lists of module Lists.  Each method is one stretch between two
 points where another thread can run, and each is proved to take the step of the same name in module Kernel.
 The loops of Semaphore::P and Lock::Acquire, which go through such points, are in module InterruptLevels.
 */
module KernelCode {
  import opened Options
  import opened Kernel
  import L = Lists

  /** The items of a list, without their keys. */
  function Tids(s: seq<L.Entry<Tid>>): (ts: seq<Tid>)
    ensures |ts| == |s| && forall i :: 0 <= i < |s| ==> ts[i] == s[i].0
  {
    seq(|s|, i requires 0 <= i < |s| => s[i].0)
  }

  /** The threads on a list, if it is a list. */
  ghost function Items(list: L.List<Tid>): Option<seq<Tid>>
    reads list, list.repr
  {
    if list.Valid() then Some(Tids(list.View())) else None
  }

  /** The lists share no element. */
  ghost predicate Apart(a: L.List<Tid>, b: L.List<Tid>)
    reads a, b
  {
    a != b && a.repr !! b.repr
  }

  class Semaphore {
    const id: nat
    var value: nat
    const queue: L.List<Tid>

    constructor (id: nat, value: nat)
      ensures this.id == id && this.value == value && fresh(queue) && queue.Valid() && queue.repr == {}
    {
      this.id, this.value := id, value;
      queue := new L.List();
    }

    ghost predicate Shows(k: State)
      reads this, queue, queue.repr
    {
      value == Value(k, id) && Items(queue) == Some(Queue(k, SemQueue(id)))
    }
  }

  class Lock {
    const id: nat
    var heldThread: Option<Tid>

    constructor (id: nat)
      ensures this.id == id && heldThread == None
    {
      this.id, heldThread := id, None;
    }

    ghost predicate Shows(k: State)
      reads this
    {
      heldThread == if id in k.owner then Some(k.owner[id]) else None
    }
  }

  class Condition {
    const id: nat
    const queue: L.List<Tid>

    constructor (id: nat)
      ensures this.id == id && fresh(queue) && queue.Valid() && queue.repr == {}
    {
      this.id := id;
      queue := new L.List();
    }

    ghost predicate Shows(k: State)
      reads queue, queue.repr
    {
      Items(queue) == Some(Queue(k, CondQueue(id)))
    }
  }

  class Scheduler {
    const readyList: L.List<Tid>
    var threads: map<Tid, Thread>
    var currentThread: Tid
    var threadToBeDestroyed: Option<Tid>
    ghost var k: State                        // the state of Kernel that all objects together show

    ghost predicate Rep()
      reads this, readyList, readyList.repr
    {
      && Wf(k) && k.threads == threads && k.current == currentThread && k.toBeDestroyed == threadToBeDestroyed
      && Items(readyList) == Some(k.ready)
    }

    ghost predicate Valid()
      reads this, readyList, readyList.repr
    {
      Rep() && Inv(k)
    }

    constructor (ghost value: map<nat, nat>)
      ensures Valid() && k == Boot(value) && fresh(readyList) && readyList.repr == {}
    {
      readyList := new L.List();
      threads, currentThread, threadToBeDestroyed := map[0 := Thread(Running, Free)], 0, None;
      k := Boot(value);
      new;
      BootInv(value);
    }

    // -------------------------------------------------------------- scheduler.cc

    method ReadyToRun(t: Tid)
      requires Rep() && t in threads
      modifies this, readyList, readyList.repr
      ensures Rep() && k == Kernel.ReadyToRun(old(k), t)
      ensures fresh(readyList.repr - old(readyList.repr))
    {
      ghost var was := readyList.View();
      threads := threads[t := threads[t].(status := Ready)];
      readyList.Append(t);
      k := Kernel.ReadyToRun(k, t);
      assert Tids(was + [(t, 0)]) == Tids(was) + [t];
    }

    method FindNextToRun() returns (next: Option<Tid>)
      requires Rep()
      modifies this`k, readyList
      ensures Rep()
      ensures next == if old(k).ready == [] then None else Some(old(k).ready[0])
      ensures k == if old(k).ready == [] then old(k) else old(k).(ready := old(k).ready[1..])
      ensures readyList.repr <= old(readyList.repr)
    {
      ghost var was := readyList.View();
      var r := readyList.SortedRemove();
      if r.None? { return None; }
      k := k.(ready := k.ready[1..]);
      assert Tids(was[1..]) == Tids(was)[1..];
      return Some(r.value.0);
    }

    /** The processor passes to next; a thread that was switched out before comes back in its own call of
        Run, behind SWITCH, and deletes the carcass. */
    method Run(next: Tid)
      requires Rep() && next in threads && Wf(Kernel.Run(k, next))
      modifies this
      ensures Rep() && k == Kernel.Run(old(k), next)
    {
      var at := threads[next].at;
      currentThread := next;
      threads := threads[next := Thread(Running, Resumed(at))];
      if !at.Fresh? && threadToBeDestroyed.Some? {
        threads := threads - {threadToBeDestroyed.value};
        threadToBeDestroyed := None;
      }
      k := Kernel.Run(k, next);
    }

    // -------------------------------------------------------------- thread.cc

    method Yield()
      requires Valid() && Enabled(k, Event.Yield)
      modifies this, readyList, readyList.repr
      ensures Valid() && k == Step(old(k), Event.Yield)
    {
      StepInv(k, Event.Yield);
      var next := FindNextToRun();
      if next.Some? {
        ReadyToRun(currentThread);
        Run(next.value);
      }
    }

    /** The end of Sleep: the processor is given to the head of the ready list.  Returns false,
        changing nothing, when the list is empty and the machine must idle. */
    method Dispatch() returns (found: bool)
      requires Valid() && !threads[currentThread].status.Running?
      modifies this, readyList
      ensures Valid() && found == (old(k).ready != [])
      ensures k == if found then Step(old(k), Event.Dispatch) else old(k)
    {
      if k.ready != [] { StepInv(k, Event.Dispatch); }
      var next := FindNextToRun();
      found := next.Some?;
      if found { Run(next.value); }
    }

    // -------------------------------------------------------------- synch.cc

    /** queue->Append(currentThread), and the status that Sleep sets. */
    method Enqueue(queue: L.List<Tid>, ghost q: QueueId, at: Resume)
      requires Rep() && Items(queue) == Some(Queue(k, q)) && Apart(readyList, queue)
      modifies this`threads, this`k, queue, queue.repr
      ensures Rep() && k == Block(old(k), q, at) && Items(queue) == Some(Queue(k, q)) && Apart(readyList, queue)
      ensures fresh(queue.repr - old(queue.repr))
    {
      ghost var was := queue.View();
      queue.Append(currentThread);
      threads := threads[currentThread := Thread(Blocked, at)];
      k := Block(k, q, at);
      assert Tids(was + [(currentThread, 0)]) == Tids(was) + [currentThread];
    }

    /** queue->Remove() followed by ReadyToRun of what it returned, if anything. */
    method WakeOne(queue: L.List<Tid>, ghost q: QueueId) returns (woke: bool)
      requires Rep() && Items(queue) == Some(Queue(k, q)) && Apart(readyList, queue)
      modifies this, queue, readyList, readyList.repr
      ensures Rep() && k == Wake(old(k), q) && Items(queue) == Some(Queue(k, q)) && Apart(readyList, queue)
      ensures woke <==> Queue(old(k), q) != []
      ensures fresh(readyList.repr - old(readyList.repr))
      ensures queue.repr <= old(queue.repr)
    {
      ghost var was, before := queue.View(), k;
      var r := queue.SortedRemove();
      woke := r.Some?;
      if woke {
        k := k.(waiting := k.waiting[q := Queue(k, q)[1..]]);
        assert Tids(was[1..]) == Tids(was)[1..];
        assert r.value.0 == Queue(before, q)[0] && r.value.0 in threads;
        ReadyToRun(r.value.0);
      }
    }

    /** One round of Semaphore::P: the test, and then the decrement or the fall asleep. */
    method TryP(sem: Semaphore) returns (passed: bool)
      requires Valid() && sem.Shows(k) && Apart(readyList, sem.queue) && Enabled(k, P(sem.id))
      modifies this`threads, this`k, sem, sem.queue, sem.queue.repr
      ensures Valid() && k == Step(old(k), P(sem.id)) && sem.Shows(k) && Apart(readyList, sem.queue)
      ensures passed <==> old(sem.value) > 0
    {
      StepInv(k, P(sem.id));
      passed := sem.value > 0;
      if passed {
        sem.value := sem.value - 1;
        threads := threads[currentThread := threads[currentThread].(at := Free)];
        k := Step(k, P(sem.id));
      } else {
        Enqueue(sem.queue, SemQueue(sem.id), RetestSem(sem.id));
      }
    }

    method SemaphoreV(sem: Semaphore)
      requires Valid() && sem.Shows(k) && Apart(readyList, sem.queue)
      modifies this, sem, sem.queue, readyList, readyList.repr
      ensures Valid() && k == PostV(old(k), sem.id) && sem.Shows(k) && Apart(readyList, sem.queue)
    {
      PostVInv(k, sem.id);
      var woke := WakeOne(sem.queue, SemQueue(sem.id));
      sem.value := sem.value + 1;
      k := k.(value := k.value[sem.id := sem.value]);
      assert k == PostV(old(k), sem.id);
    }

    /** The thread goes on the queue, the lock is given up, the thread is not running. */
    method QueueAndRelease(cond: Condition, lock: Lock)
      requires Rep() && cond.Shows(k) && lock.Shows(k) && Apart(readyList, cond.queue) && Holds(k, lock.id, currentThread)
      modifies this`threads, this`k, lock, cond.queue, cond.queue.repr
      ensures Rep() && k == Block(old(k).(owner := old(k).owner - {lock.id}), CondQueue(cond.id), InWait(cond.id, lock.id))
      ensures cond.Shows(k) && lock.Shows(k) && Apart(readyList, cond.queue)
    {
      Enqueue(cond.queue, CondQueue(cond.id), InWait(cond.id, lock.id));
      lock.heldThread := None;
      k := k.(owner := k.owner - {lock.id});
    }

    /** Wait up to Sleep. */
    method Wait(cond: Condition, lock: Lock)
      requires Valid() && cond.Shows(k) && lock.Shows(k) && Apart(readyList, cond.queue)
      requires Enabled(k, Event.Wait(cond.id, lock.id))
      modifies this`threads, this`k, lock, cond.queue, cond.queue.repr
      ensures Valid() && k == Step(old(k), Event.Wait(cond.id, lock.id))
      ensures cond.Shows(k) && lock.Shows(k) && Apart(readyList, cond.queue)
    {
      StepInv(k, Event.Wait(cond.id, lock.id));
      if lock.heldThread == Some(currentThread) { QueueAndRelease(cond, lock); }
    }

    method Signal(cond: Condition, lock: Lock)
      requires Valid() && cond.Shows(k) && lock.Shows(k) && Apart(readyList, cond.queue)
      requires Enabled(k, Event.Signal(cond.id, lock.id))
      modifies this, cond.queue, readyList, readyList.repr
      ensures Valid() && k == Step(old(k), Event.Signal(cond.id, lock.id)) && cond.Shows(k) && Apart(readyList, cond.queue)
    {
      StepInv(k, Event.Signal(cond.id, lock.id));
      if lock.heldThread == Some(currentThread) {
        var woke := WakeOne(cond.queue, CondQueue(cond.id));
      }
    }

    /** The loop of Broadcast, which empties the queue. */
    method WakeEvery(queue: L.List<Tid>, ghost q: QueueId)
      requires Valid() && Items(queue) == Some(Queue(k, q)) && Apart(readyList, queue)
      modifies this, queue, readyList, readyList.repr
      ensures Rep() && k == WakeAll(old(k), q) && Items(queue) == Some(Queue(k, q)) && Apart(readyList, queue)
    {
      var empty := queue.IsEmpty();
      while !empty
        invariant Rep() && Inv(k) == true && Items(queue) == Some(Queue(k, q)) && Apart(readyList, queue)
        invariant empty <==> Queue(k, q) == []
        invariant WakeAll(k, q) == WakeAll(old(k), q)
        invariant fresh(readyList.repr - old(readyList.repr))
        decreases |Queue(k, q)|
      {
        WakeInv(k, q);
        WakeThenAll(k, q);
        var woke := WakeOne(queue, q);
        empty := queue.IsEmpty();
      }
    }

    method Broadcast(cond: Condition, lock: Lock)
      requires Valid() && cond.Shows(k) && lock.Shows(k) && Apart(readyList, cond.queue)
      requires Enabled(k, Event.Broadcast(cond.id, lock.id))
      modifies this, cond.queue, readyList, readyList.repr
      ensures Valid() && k == Step(old(k), Event.Broadcast(cond.id, lock.id)) && cond.Shows(k) && Apart(readyList, cond.queue)
    {
      StepInv(k, Event.Broadcast(cond.id, lock.id));
      if lock.heldThread == Some(currentThread) { WakeEvery(cond.queue, CondQueue(cond.id)); }
    }
  }
}
