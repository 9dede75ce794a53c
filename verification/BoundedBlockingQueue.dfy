/** `base/bounded_blocking_queue.h`: the queue, its lock and its waiting threads as one object.
    Each method is one critical section, from taking the lock to giving it up or going to sleep;
    a `while` loop around a `wait` is the same section entered again after a wakeup. */
module BoundedBlockingQueue {
  import opened QueueProtocol

  class BoundedBlockingQueue<T> {
    const capacity: nat
    const wiring: Wiring
    var queue: seq<T>
    var threads: map<Tid, Thread<T>>
    ghost var puts: seq<T>
    ghost var taken: seq<T>

    constructor (maxSize: nat, wiring: Wiring, users: set<Tid>)
      ensures capacity == maxSize && this.wiring == wiring && threads.Keys == users
      ensures Init(Value()) && Valid()
    {
      capacity := maxSize;
      this.wiring := wiring;
      queue, puts, taken := [], [], [];
      threads := map t | t in users :: Idle;
    }

    ghost function Value(): State<T>
      reads this
    {
      State(capacity, queue, threads, puts, taken)
    }

    ghost predicate Valid()
      reads this
    {
      Fifo(Value())
    }

    /** `Cond::post` */
    method Post(c: Cond) returns (woken: Option<Tid>)
      modifies this`threads
      ensures CanPost(wiring, old(threads), c, woken)
      ensures threads == QueueProtocol.Post(wiring, old(threads), c, woken)
    {
      var waiters := Waiters(wiring, threads, c);
      if waiters == {} {
        woken := None;
      } else {
        var t :| t in waiters;
        threads := threads[t := threads[t].(phase := Woken)];
        woken := Some(t);
      }
    }

    /** A thread enters `put`. */
    method CallPut(t: Tid, x: T)
      requires Valid() && t in threads && threads[t].Idle?
      modifies this
      ensures Valid()
      ensures Value() == Apply(wiring, old(Value()), Event.CallPut(t, x))
    {
      threads := threads[t := Putting(x, Ready)];
    }

    /** A thread enters `take`. */
    method CallTake(t: Tid)
      requires Valid() && t in threads && threads[t].Idle?
      modifies this
      ensures Valid()
      ensures Value() == Apply(wiring, old(Value()), Event.CallTake(t))
    {
      threads := threads[t := Taking(Ready)];
    }

    /** A thread in `put` gets the lock: it goes to sleep on a full queue, or pushes and posts. */
    method RunPut(t: Tid) returns (done: bool, ghost woken: Option<Tid>)
      requires Valid() && t in threads && threads[t].Putting? && HasLock(threads[t])
      modifies this
      ensures Valid()
      ensures done <==> |old(queue)| < capacity
      ensures done ==> queue == old(queue) + [old(threads)[t].x] && t in threads && threads[t] == Idle
      ensures !done ==> queue == old(queue) && threads == old(threads)[t := Putting(old(threads)[t].x, Asleep)]
      ensures Enabled(wiring, old(Value()), Event.RunPut(t, woken))
      ensures Value() == Apply(wiring, old(Value()), Event.RunPut(t, woken))
    {
      var x := threads[t].x;
      if |queue| == capacity {
        threads := threads[t := Putting(x, Asleep)];
        return false, None;
      }
      queue := PushBack(queue, capacity, x);
      puts := puts + [x];
      threads := threads[t := Idle];
      woken := Post(NotEmpty);
      done := true;
    }

    /** A thread in `take` gets the lock: it goes to sleep on an empty queue, or pops and posts. */
    method RunTake(t: Tid) returns (front: Option<T>, ghost woken: Option<Tid>)
      requires Valid() && t in threads && threads[t].Taking? && HasLock(threads[t])
      modifies this
      ensures Valid()
      ensures front == if old(queue) == [] then None else Some(old(queue)[0])
      ensures front.Some? ==> queue == old(queue)[1..] && t in threads && threads[t] == Idle
      ensures front.None? ==> queue == [] && threads == old(threads)[t := Taking(Asleep)]
      ensures Enabled(wiring, old(Value()), Event.RunTake(t, woken))
      ensures Value() == Apply(wiring, old(Value()), Event.RunTake(t, woken))
    {
      if |queue| == 0 {
        threads := threads[t := Taking(Asleep)];
        return None, None;
      }
      front := Some(queue[0]);
      taken := taken + [queue[0]];
      queue := queue[1..];
      threads := threads[t := Idle];
      woken := Post(NotFull);
    }

    method SpuriousWake(t: Tid)
      requires Valid() && t in threads && !threads[t].Idle? && threads[t].phase == Asleep
      modifies this
      ensures Valid()
      ensures Value() == Apply(wiring, old(Value()), Event.SpuriousWake(t))
    {
      threads := threads[t := threads[t].(phase := Woken)];
    }

    method Empty() returns (b: bool)
      requires Valid()
      ensures b <==> taken == puts
    {
      b := |queue| == 0;
    }

    method Full() returns (b: bool)
      requires Valid()
      ensures b <==> |puts| == |taken| + capacity
    {
      b := |queue| == capacity;
    }
  }
}
