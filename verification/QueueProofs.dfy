/** What the bounded blocking queue is for, over every interleaving: values come out in the order
    they went in, nothing overflows or underflows, and no thread sleeps through its wakeup. */
module QueueProofs {
  import opened QueueProtocol

  // ---- Safety, whichever condition is waited on ----

  lemma FifoStep<T>(w: Wiring, s: State<T>, e: Event<T>)
    requires Fifo(s) && Enabled(w, s, e)
    ensures Fifo(Apply(w, s, e))
    ensures s.puts <= Apply(w, s, e).puts && s.taken <= Apply(w, s, e).taken
  {
  }

  /** The values taken, then those in the queue, are the values put, in lock order, in every
      reachable state. */
  lemma {:induction false} FifoSafety<T>(w: Wiring, s: State<T>, es: seq<Event<T>>)
    requires Fifo(s) && CanRun(w, s, es)
    ensures Fifo(After(w, s, es))
    ensures s.puts <= After(w, s, es).puts && s.taken <= After(w, s, es).taken
    decreases |es|
  {
    if es != [] {
      FifoStep(w, s, es[0]);
      FifoSafety(w, Apply(w, s, es[0]), es[1..]);
    }
  }

  // ---- Each call of put pushes its value once ----

  /** The value, if any, that thread `t` passes to `put` in step `e`. */
  function Called<T>(e: Event<T>, t: Tid): seq<T> {
    if e.CallPut? && e.t == t then [e.x] else []
  }

  /** The value, if any, that thread `t` pushes in step `e`. */
  function Pushed<T>(w: Wiring, s: State<T>, e: Event<T>, t: Tid): seq<T>
    requires Enabled(w, s, e)
  {
    if e.RunPut? && e.t == t && !IsFull(s) then [s.threads[t].x] else []
  }

  function CalledBy<T>(es: seq<Event<T>>, t: Tid): seq<T> {
    if es == [] then [] else Called(es[0], t) + CalledBy(es[1..], t)
  }

  function PushedBy<T>(w: Wiring, s: State<T>, es: seq<Event<T>>, t: Tid): seq<T>
    requires CanRun(w, s, es)
    decreases |es|
  {
    if es == [] then [] else Pushed(w, s, es[0], t) + PushedBy(w, Apply(w, s, es[0]), es[1..], t)
  }

  /** The value that thread `t` holds inside `put`, asleep or not. */
  function Pending<T>(s: State<T>, t: Tid): seq<T> {
    if t in s.threads && s.threads[t].Putting? then [s.threads[t].x] else []
  }

  lemma PutStep<T>(w: Wiring, s: State<T>, e: Event<T>, t: Tid)
    requires Enabled(w, s, e)
    ensures Pending(s, t) + Called(e, t) == Pushed(w, s, e, t) + Pending(Apply(w, s, e), t)
    ensures Apply(w, s, e).puts == s.puts + Pushed(w, s, e, e.t)
  {
  }

  /** However often a thread sleeps, is woken and is overtaken, its values are pushed once each
      and in the order of its calls; only the call it is still in may be missing. */
  lemma {:induction false} EachPutPushesOnce<T>(w: Wiring, s: State<T>, es: seq<Event<T>>, t: Tid)
    requires CanRun(w, s, es)
    ensures Pending(s, t) + CalledBy(es, t) == PushedBy(w, s, es, t) + Pending(After(w, s, es), t)
    decreases |es|
  {
    if es != [] {
      hide Pending, Called, Pushed, Enabled, Apply;
      var e, rest := es[0], es[1..];
      var next := Apply(w, s, e);
      EachPutPushesOnce(w, next, rest, t);
      PutStep(w, s, e, t);
      Regroup(Pending(s, t), Called(e, t), CalledBy(rest, t),
              Pushed(w, s, e, t), Pending(next, t), PushedBy(w, next, rest, t), Pending(After(w, next, rest), t));
    }
  }

  lemma Regroup<T>(a: seq<T>, c: seq<T>, cs: seq<T>, p: seq<T>, m: seq<T>, ps: seq<T>, z: seq<T>)
    requires a + c == p + m && m + cs == ps + z
    ensures a + (c + cs) == (p + ps) + z
  {
    assert a + (c + cs) == (a + c) + cs == p + (m + cs) == (p + ps) + z;
  }

  // ---- Each call of take pops one value ----

  /** The value, if any, that thread `t` pops in step `e`. */
  function Popped<T>(w: Wiring, s: State<T>, e: Event<T>, t: Tid): seq<T>
    requires Enabled(w, s, e)
  {
    if e.RunTake? && e.t == t && s.queue != [] then [s.queue[0]] else []
  }

  function PoppedBy<T>(w: Wiring, s: State<T>, es: seq<Event<T>>, t: Tid): seq<T>
    requires CanRun(w, s, es)
    decreases |es|
  {
    if es == [] then [] else Popped(w, s, es[0], t) + PoppedBy(w, Apply(w, s, es[0]), es[1..], t)
  }

  /** How often thread `t` enters `take`. */
  function TakesBy<T>(es: seq<Event<T>>, t: Tid): nat {
    if es == [] then 0 else (if es[0].CallTake? && es[0].t == t then 1 else 0) + TakesBy(es[1..], t)
  }

  /** 1 while thread `t` is inside `take`, asleep or not. */
  function InTake<T>(s: State<T>, t: Tid): nat {
    if t in s.threads && s.threads[t].Taking? then 1 else 0
  }

  lemma TakeStep<T>(w: Wiring, s: State<T>, e: Event<T>, t: Tid)
    requires Enabled(w, s, e)
    ensures |Popped(w, s, e, t)| + InTake(Apply(w, s, e), t)
         == (if e.CallTake? && e.t == t then 1 else 0) + InTake(s, t)
    ensures Apply(w, s, e).taken == s.taken + Popped(w, s, e, e.t)
  {
  }

  /** A thread leaves `take` only with a value: over every interleaving its pops, and the call it
      is still in, are its calls, and the one it started in. */
  lemma {:induction false} EachTakePopsOnce<T>(w: Wiring, s: State<T>, es: seq<Event<T>>, t: Tid)
    requires CanRun(w, s, es)
    ensures |PoppedBy(w, s, es, t)| + InTake(After(w, s, es), t) == TakesBy(es, t) + InTake(s, t)
    decreases |es|
  {
    if es != [] {
      hide Popped, InTake, Enabled, Apply;
      TakeStep(w, s, es[0], t);
      EachTakePopsOnce(w, Apply(w, s, es[0]), es[1..], t);
    }
  }

  // ---- No lost wakeup ----

  function Producers<T>(threads: map<Tid, Thread<T>>, p: Phase): set<Tid> {
    set t | t in threads && threads[t].Putting? && threads[t].phase == p
  }

  function Consumers<T>(threads: map<Tid, Thread<T>>, p: Phase): set<Tid> {
    set t | t in threads && threads[t].Taking? && threads[t].phase == p
  }

  /** While a producer sleeps, every free slot has a woken producer on its way to it. */
  predicate NoSlotMissed<T>(s: State<T>) {
    Producers(s.threads, Asleep) != {} ==> s.capacity - |s.queue| <= |Producers(s.threads, Woken)|
  }

  /** While a consumer sleeps, every queued value has a woken consumer on its way to it. */
  predicate NoValueMissed<T>(s: State<T>) {
    Consumers(s.threads, Asleep) != {} ==> |s.queue| <= |Consumers(s.threads, Woken)|
  }

  predicate NoLostWakeup<T>(s: State<T>) {
    |s.queue| <= s.capacity && NoSlotMissed(s) && NoValueMissed(s)
  }

  /** How one thread's move changes the set of producers, or consumers, in a phase. */
  lemma Moved<T>(threads: map<Tid, Thread<T>>, t: Tid, th: Thread<T>, p: Phase)
    ensures Producers(threads[t := th], p)
         == Producers(threads, p) - {t} + if th.Putting? && th.phase == p then {t} else {}
    ensures Consumers(threads[t := th], p)
         == Consumers(threads, p) - {t} + if th.Taking? && th.phase == p then {t} else {}
  {
  }

  lemma IntendedWaiters<T>(threads: map<Tid, Thread<T>>)
    ensures Waiters(Intended, threads, NotFull) == Producers(threads, Asleep)
    ensures Waiters(Intended, threads, NotEmpty) == Consumers(threads, Asleep)
  {
  }

  /** A thread leaves the monitor, or goes to sleep in it, or is woken: the four sets that the
      invariant speaks of. */
  lemma MovedAll<T>(threads: map<Tid, Thread<T>>, t: Tid, th: Thread<T>)
    ensures var after := threads[t := th];
            && Producers(after, Asleep)
               == Producers(threads, Asleep) - {t} + (if th.Putting? && th.phase == Asleep then {t} else {})
            && Producers(after, Woken)
               == Producers(threads, Woken) - {t} + (if th.Putting? && th.phase == Woken then {t} else {})
            && Consumers(after, Asleep)
               == Consumers(threads, Asleep) - {t} + (if th.Taking? && th.phase == Asleep then {t} else {})
            && Consumers(after, Woken)
               == Consumers(threads, Woken) - {t} + (if th.Taking? && th.phase == Woken then {t} else {})
  {
    Moved(threads, t, th, Asleep);
    Moved(threads, t, th, Woken);
  }

  lemma WakeupCall<T>(s: State<T>, e: Event<T>)
    requires NoLostWakeup(s) && Enabled(Intended, s, e) && (e.CallPut? || e.CallTake? || e.SpuriousWake?)
    ensures NoLostWakeup(Apply(Intended, s, e))
  {
    hide Producers, Consumers;
    MovedAll(s.threads, e.t, Apply(Intended, s, e).threads[e.t]);
    InPhase(s.threads, e.t);
  }

  /** A thread is counted in its own phase and in no other. */
  lemma InPhase<T>(threads: map<Tid, Thread<T>>, t: Tid)
    requires t in threads
    ensures forall p :: t in Producers(threads, p) <==> threads[t].Putting? && threads[t].phase == p
    ensures forall p :: t in Consumers(threads, p) <==> threads[t].Taking? && threads[t].phase == p
  {
  }

  lemma Without<T>(threads: map<Tid, Thread<T>>, t: Tid)
    ensures var left := threads[t := Idle];
            && Producers(left, Asleep) == Producers(threads, Asleep) - {t}
            && Producers(left, Woken) == Producers(threads, Woken) - {t}
            && Consumers(left, Asleep) == Consumers(threads, Asleep) - {t}
            && Consumers(left, Woken) == Consumers(threads, Woken) - {t}
  {
  }

  lemma WithoutOne(ts: set<Tid>, t: Tid)
    ensures |ts - {t}| == |ts| - if t in ts then 1 else 0
    ensures t !in ts ==> ts - {t} == ts
  {
    assert ts - {t} == if t in ts then ts - {t} else ts;
  }

  lemma Leave<T>(threads: map<Tid, Thread<T>>, t: Tid)
    requires t in threads && HasLock(threads[t])
    ensures var left := threads[t := Idle];
            && Producers(left, Asleep) == Producers(threads, Asleep)
            && Consumers(left, Asleep) == Consumers(threads, Asleep)
            && |Producers(left, Woken)| >= |Producers(threads, Woken)| - (if threads[t].Putting? then 1 else 0)
            && |Consumers(left, Woken)| >= |Consumers(threads, Woken)| - (if threads[t].Taking? then 1 else 0)
  {
    hide Producers, Consumers;
    Without(threads, t);
    InPhase(threads, t);
    WithoutOne(Producers(threads, Asleep), t);
    WithoutOne(Consumers(threads, Asleep), t);
    WithoutOne(Producers(threads, Woken), t);
    WithoutOne(Consumers(threads, Woken), t);
  }

  lemma WithWoken<T>(threads: map<Tid, Thread<T>>, t: Tid)
    requires t in threads && !threads[t].Idle? && threads[t].phase == Asleep
    ensures var after := Wake(threads, t);
            && Producers(after, Woken) == Producers(threads, Woken) + (if threads[t].Putting? then {t} else {})
            && Consumers(after, Woken) == Consumers(threads, Woken) + (if threads[t].Taking? then {t} else {})
            && Producers(after, Asleep) == Producers(threads, Asleep) - {t}
            && Consumers(after, Asleep) == Consumers(threads, Asleep) - {t}
  {
  }

  lemma WakeProducer<T>(threads: map<Tid, Thread<T>>, t: Tid)
    requires t in Producers(threads, Asleep)
    ensures var after := Wake(threads, t);
            && |Producers(after, Woken)| == |Producers(threads, Woken)| + 1
            && Consumers(after, Asleep) == Consumers(threads, Asleep)
            && |Consumers(after, Woken)| == |Consumers(threads, Woken)|
  {
    hide Producers, Consumers, Wake;
    SleepingThread(threads, t);
    WithWoken(threads, t);
    InPhase(threads, t);
    WithoutOne(Consumers(threads, Asleep), t);
  }

  lemma WakeConsumer<T>(threads: map<Tid, Thread<T>>, t: Tid)
    requires t in Consumers(threads, Asleep)
    ensures var after := Wake(threads, t);
            && |Consumers(after, Woken)| == |Consumers(threads, Woken)| + 1
            && Producers(after, Asleep) == Producers(threads, Asleep)
            && |Producers(after, Woken)| == |Producers(threads, Woken)|
  {
    hide Producers, Consumers, Wake;
    SleepingThread(threads, t);
    WithWoken(threads, t);
    InPhase(threads, t);
    WithoutOne(Producers(threads, Asleep), t);
  }

  lemma SleepingThread<T>(threads: map<Tid, Thread<T>>, t: Tid)
    ensures t in Producers(threads, Asleep) ==> t in threads && threads[t].Putting? && threads[t].phase == Asleep
    ensures t in Consumers(threads, Asleep) ==> t in threads && threads[t].Taking? && threads[t].phase == Asleep
  {
  }

  /** A thread that goes to sleep changes no set of the other kind. */
  lemma FallAsleep<T>(threads: map<Tid, Thread<T>>, t: Tid, th: Thread<T>)
    requires t in threads && !threads[t].Idle?
    ensures threads[t].Putting? && th.Putting? ==>
            forall p :: Consumers(threads[t := th], p) == Consumers(threads, p)
    ensures threads[t].Taking? && th.Taking? ==>
            forall p :: Producers(threads[t := th], p) == Producers(threads, p)
  {
  }

  lemma WakeupPut<T>(s: State<T>, e: Event<T>)
    requires NoLostWakeup(s) && Enabled(Intended, s, e) && e.RunPut?
    ensures NoLostWakeup(Apply(Intended, s, e))
  {
    hide Producers, Consumers, Waiters, Wake;
    if IsFull(s) {
      FallAsleep(s.threads, e.t, Putting(s.threads[e.t].x, Asleep));
    } else {
      var left := s.threads[e.t := Idle];
      Leave(s.threads, e.t);
      IntendedWaiters(left);
      if e.woken.Some? {
        WakeConsumer(left, e.woken.value);
      }
    }
  }

  lemma WakeupTake<T>(s: State<T>, e: Event<T>)
    requires NoLostWakeup(s) && Enabled(Intended, s, e) && e.RunTake?
    ensures NoLostWakeup(Apply(Intended, s, e))
  {
    hide Producers, Consumers, Waiters, Wake;
    if s.queue == [] {
      FallAsleep(s.threads, e.t, Taking(Asleep));
    } else {
      var left := s.threads[e.t := Idle];
      Leave(s.threads, e.t);
      IntendedWaiters(left);
      if e.woken.Some? {
        WakeProducer(left, e.woken.value);
      }
    }
  }

  lemma WakeupStep<T>(s: State<T>, e: Event<T>)
    requires NoLostWakeup(s) && Enabled(Intended, s, e)
    ensures NoLostWakeup(Apply(Intended, s, e))
  {
    hide *;
    if e.RunPut? {
      WakeupPut(s, e);
    } else if e.RunTake? {
      WakeupTake(s, e);
    } else {
      WakeupCall(s, e);
    }
  }

  lemma {:induction false} WakeupsArrive<T>(s: State<T>, es: seq<Event<T>>)
    requires NoLostWakeup(s) && CanRun(Intended, s, es)
    ensures NoLostWakeup(After(Intended, s, es))
    decreases |es|
  {
    if es != [] {
      WakeupStep(s, es[0]);
      WakeupsArrive(Apply(Intended, s, es[0]), es[1..]);
    }
  }

  /** In every reachable state where a producer and a consumer both sleep, at least as many
      threads as the queue has slots have been woken and are about to run. */
  lemma NeverAllAsleep<T>(s: State<T>, es: seq<Event<T>>)
    requires Init(s) && CanRun(Intended, s, es)
    ensures var r := After(Intended, s, es);
            Producers(r.threads, Asleep) != {} && Consumers(r.threads, Asleep) != {} ==>
            |Producers(r.threads, Woken)| + |Consumers(r.threads, Woken)| >= s.capacity
  {
    WakeupsArrive(s, es);
    CapacityConstant(Intended, s, es);
  }

  lemma {:induction false} CapacityConstant<T>(w: Wiring, s: State<T>, es: seq<Event<T>>)
    requires CanRun(w, s, es)
    ensures After(w, s, es).capacity == s.capacity
    decreases |es|
  {
    if es != [] {
      CapacityConstant(w, Apply(w, s, es[0]), es[1..]);
    }
  }

  // ---- Consumers are woken whichever condition put waits on ----

  lemma WaitersOfEither<T>(w: Wiring, threads: map<Tid, Thread<T>>)
    ensures Waiters(w, threads, NotEmpty)
         == Consumers(threads, Asleep) + (if w.AsWritten? then Producers(threads, Asleep) else {})
    ensures Waiters(w, threads, NotFull) == if w.AsWritten? then {} else Producers(threads, Asleep)
  {
  }

  /** Who sleeps on the condition that a push, or a pop, posts. */
  function Reached<T>(w: Wiring, s: State<T>, e: Event<T>): set<Tid> {
    if e.RunPut? then
      Consumers(s.threads, Asleep) + (if w.AsWritten? then Producers(s.threads, Asleep) else {})
    else
      if w.AsWritten? then {} else Producers(s.threads, Asleep)
  }

  /** A push or a pop wakes one of those, if there is one, and changes no other thread. */
  lemma PostWakesOne<T>(w: Wiring, s: State<T>, e: Event<T>)
    requires Enabled(w, s, e) && ((e.RunPut? && !IsFull(s)) || (e.RunTake? && s.queue != []))
    ensures Reached(w, s, e) == {} <==> e.woken.None?
    ensures e.woken.None? ==> Apply(w, s, e).threads == s.threads[e.t := Idle]
    ensures e.woken.Some? ==>
              var v := e.woken.value;
              && v in Reached(w, s, e) && v != e.t && v in s.threads && !s.threads[v].Idle?
              && Apply(w, s, e).threads == s.threads[e.t := Idle][v := s.threads[v].(phase := Woken)]
  {
    hide Producers, Consumers, Waiters;
    var left := s.threads[e.t := Idle];
    Leave(s.threads, e.t);
    WaitersOfEither(w, left);
    InPhase(s.threads, e.t);
    if e.woken.Some? {
      SleepingThread(s.threads, e.woken.value);
    }
  }

  /** Where consumers sleep and no producer does, a put that pushes wakes exactly one of them. */
  lemma PutWakesConsumer<T>(w: Wiring, s: State<T>, e: Event<T>)
    requires Enabled(w, s, e) && e.RunPut? && !IsFull(s)
    requires Producers(s.threads, Asleep) == {} && Consumers(s.threads, Asleep) != {}
    ensures var after := Apply(w, s, e).threads;
            && e.woken.Some? && e.woken.value in Consumers(s.threads, Asleep)
            && Consumers(after, Asleep) == Consumers(s.threads, Asleep) - {e.woken.value}
            && Consumers(after, Woken) == Consumers(s.threads, Woken) + {e.woken.value}
            && Producers(after, Asleep) == {}
  {
    hide Producers, Consumers, Waiters, Wake;
    var left := s.threads[e.t := Idle];
    Leave(s.threads, e.t);
    LeaveProducer(s.threads, e.t);
    WaitersOfEither(w, left);
    SleepingThread(left, e.woken.value);
    WithWoken(left, e.woken.value);
  }

  lemma LeaveProducer<T>(threads: map<Tid, Thread<T>>, t: Tid)
    requires t in threads && threads[t].Putting?
    ensures Consumers(threads[t := Idle], Woken) == Consumers(threads, Woken)
  {
  }

  /** No producer sleeps, and no consumer sleeps through a value. */
  predicate ConsumersServed<T>(s: State<T>) {
    Producers(s.threads, Asleep) == {} && NoValueMissed(s) && |s.queue| <= s.capacity
  }

  lemma ServedCall<T>(w: Wiring, s: State<T>, e: Event<T>)
    requires ConsumersServed(s) && Enabled(w, s, e) && !e.RunPut? && !e.RunTake?
    ensures ConsumersServed(Apply(w, s, e))
  {
    hide Producers, Consumers;
    MovedAll(s.threads, e.t, Apply(w, s, e).threads[e.t]);
    InPhase(s.threads, e.t);
  }

  lemma ServedPut<T>(w: Wiring, s: State<T>, e: Event<T>)
    requires ConsumersServed(s) && Enabled(w, s, e) && e.RunPut? && !IsFull(s)
    ensures ConsumersServed(Apply(w, s, e))
  {
    hide Producers, Consumers, Waiters, Wake;
    var left := s.threads[e.t := Idle];
    Leave(s.threads, e.t);
    WaitersOfEither(w, left);
    if e.woken.Some? {
      WakeConsumer(left, e.woken.value);
    }
  }

  lemma ServedTake<T>(w: Wiring, s: State<T>, e: Event<T>)
    requires ConsumersServed(s) && Enabled(w, s, e) && e.RunTake?
    ensures ConsumersServed(Apply(w, s, e))
  {
    hide Producers, Consumers, Waiters, Wake;
    if s.queue == [] {
      FallAsleep(s.threads, e.t, Taking(Asleep));
    } else {
      Leave(s.threads, e.t);
      WaitersOfEither(w, s.threads[e.t := Idle]);
    }
  }

  /** No put along the way finds the queue full. */
  predicate NoPutBlocks<T>(w: Wiring, s: State<T>, es: seq<Event<T>>)
    requires CanRun(w, s, es)
    decreases |es|
  {
    es == [] || (!(es[0].RunPut? && IsFull(s)) && NoPutBlocks(w, Apply(w, s, es[0]), es[1..]))
  }

  /** With the wait as written too, no consumer sleeps through a value as long as no put has had
      to wait: while one sleeps, every queued value has a woken consumer on its way to it. */
  lemma {:induction false} ConsumersAlwaysServed<T>(w: Wiring, s: State<T>, es: seq<Event<T>>)
    requires ConsumersServed(s) && CanRun(w, s, es) && NoPutBlocks(w, s, es)
    ensures ConsumersServed(After(w, s, es)) && NoValueMissed(After(w, s, es))
    decreases |es|
  {
    if es != [] {
      hide Enabled, Apply, ConsumersServed;
      if es[0].RunPut? {
        ServedPut(w, s, es[0]);
      } else if es[0].RunTake? {
        ServedTake(w, s, es[0]);
      } else {
        ServedCall(w, s, es[0]);
      }
      ConsumersAlwaysServed(w, Apply(w, s, es[0]), es[1..]);
    }
  }

  lemma InitIsServed<T>(s: State<T>)
    requires Init(s)
    ensures ConsumersServed(s)
  {
  }

  // ---- Threads at rest are blocked for a reason, with the intended wiring and no other ----

  /** No thread wants the lock: nothing happens until a new call, or a wakeup for no reason. */
  predicate AtRest<T>(s: State<T>) {
    forall t :: t in s.threads ==> !HasLock(s.threads[t])
  }

  /** A sleeping producer faces a full queue, a sleeping consumer an empty one. */
  predicate BlockedForReason<T>(s: State<T>) {
    && (Producers(s.threads, Asleep) != {} ==> |s.queue| == s.capacity)
    && (Consumers(s.threads, Asleep) != {} ==> |s.queue| == 0)
  }

  ghost predicate NeverStuck<T(!new)>(w: Wiring, capacity: nat) {
    forall s: State<T>, es :: s.capacity == capacity && Init(s) && CanRun(w, s, es) && AtRest(After(w, s, es)) ==>
      BlockedForReason(After(w, s, es))
  }

  lemma RestIsBlockedForReason<T>(s: State<T>, es: seq<Event<T>>)
    requires Init(s) && CanRun(Intended, s, es) && AtRest(After(Intended, s, es))
    ensures BlockedForReason(After(Intended, s, es))
  {
    WakeupsArrive(s, es);
    var r := After(Intended, s, es);
    assert Producers(r.threads, Woken) == {} && Consumers(r.threads, Woken) == {};
  }

  lemma {:induction false} RunInTwo<T>(w: Wiring, s: State<T>, es: seq<Event<T>>, fs: seq<Event<T>>)
    requires CanRun(w, s, es) && CanRun(w, After(w, s, es), fs)
    ensures CanRun(w, s, es + fs) && After(w, s, es + fs) == After(w, After(w, s, es), fs)
    decreases |es|
  {
    if es == [] {
      assert es + fs == fs;
    } else {
      assert (es + fs)[1..] == es[1..] + fs;
      RunInTwo(w, Apply(w, s, es[0]), es[1..], fs);
    }
  }

  lemma RunOne<T>(w: Wiring, s: State<T>, e: Event<T>)
    requires Enabled(w, s, e)
    ensures CanRun(w, s, [e]) && After(w, s, [e]) == Apply(w, s, e)
  {
    var rest := [e][1..];
    assert CanRun(w, Apply(w, s, e), rest) && After(w, Apply(w, s, e), rest) == Apply(w, s, e);
  }

  ghost predicate AllIdle<T>(s: State<T>) {
    s.threads == map[0 := Idle, 1 := Idle, 2 := Idle]
  }

  /** With no one waiting, a thread puts a value and leaves. */
  lemma PutAlone<T>(w: Wiring, s: State<T>, x: T) returns (es: seq<Event<T>>)
    requires AllIdle(s) && |s.queue| < s.capacity
    ensures CanRun(w, s, es)
    ensures After(w, s, es) == s.(queue := s.queue + [x], puts := s.puts + [x])
  {
    var called := Apply(w, s, CallPut(0, x));
    assert called.threads[0 := Idle] == s.threads;
    RunOne(w, s, CallPut(0, x));
    RunOne(w, called, RunPut(0, None));
    RunInTwo(w, s, [CallPut(0, x)], [RunPut(0, None)]);
    es := [CallPut(0, x)] + [RunPut(0, None)];
  }

  lemma {:induction false} Fill<T>(w: Wiring, s: State<T>, x: T) returns (es: seq<Event<T>>)
    requires AllIdle(s) && |s.queue| <= s.capacity
    ensures CanRun(w, s, es)
    ensures var r := After(w, s, es); AllIdle(r) && IsFull(r) && r.capacity == s.capacity
    decreases s.capacity - |s.queue|
  {
    if IsFull(s) {
      es := [];
    } else {
      var first := PutAlone(w, s, x);
      var rest := Fill(w, After(w, s, first), x);
      RunInTwo(w, s, first, rest);
      es := first + rest;
    }
  }

  /** From a full queue, as written: a producer sleeps on `m_not_empty`, a consumer makes room and
      posts `m_not_full`, and nobody is left to run while the producer sleeps on. */
  lemma SleepThrough<T>(s: State<T>, x: T) returns (es: seq<Event<T>>)
    requires AllIdle(s) && IsFull(s) && s.capacity > 0
    ensures CanRun(AsWritten, s, es)
    ensures var r := After(AsWritten, s, es);
            AtRest(r) && 1 in Producers(r.threads, Asleep) && |r.queue| == r.capacity - 1
  {
    var w := AsWritten;
    var s1 := Apply(w, s, CallPut(1, x));
    var s2 := Apply(w, s1, RunPut(1, None));
    var s3 := Apply(w, s2, CallTake(2));
    assert Waiters(w, s3.threads[2 := Idle], NotFull) == {};
    RunOne(w, s, CallPut(1, x));
    RunOne(w, s1, RunPut(1, None));
    RunOne(w, s2, CallTake(2));
    RunOne(w, s3, RunTake(2, None));
    RunInTwo(w, s2, [CallTake(2)], [RunTake(2, None)]);
    RunInTwo(w, s1, [RunPut(1, None)], [CallTake(2)] + [RunTake(2, None)]);
    RunInTwo(w, s, [CallPut(1, x)], [RunPut(1, None)] + ([CallTake(2)] + [RunTake(2, None)]));
    es := [CallPut(1, x)] + ([RunPut(1, None)] + ([CallTake(2)] + [RunTake(2, None)]));
  }

  lemma AsWrittenGetsStuck<T>(capacity: nat, x: T) returns (s: State<T>, es: seq<Event<T>>)
    requires capacity > 0
    ensures s.capacity == capacity && Init(s) && CanRun(AsWritten, s, es)
    ensures AtRest(After(AsWritten, s, es)) && !BlockedForReason(After(AsWritten, s, es))
  {
    s := State(capacity, [], map[0 := Idle, 1 := Idle, 2 := Idle], [], []);
    var fill := Fill(AsWritten, s, x);
    var rest := SleepThrough(After(AsWritten, s, fill), x);
    RunInTwo(AsWritten, s, fill, rest);
    CapacityConstant(AsWritten, s, fill + rest);
    es := fill + rest;
  }

  /** The queue is never stuck exactly when `put` waits on `m_not_full`, or nothing fits in it. */
  lemma NeverStuckExactly<T(!new)>(w: Wiring, capacity: nat, x: T)
    ensures NeverStuck<T>(w, capacity) <==> w.Intended? || capacity == 0
  {
    if w.Intended? || capacity == 0 {
      forall s: State<T>, es | s.capacity == capacity && Init(s) && CanRun(w, s, es) && AtRest(After(w, s, es))
        ensures BlockedForReason(After(w, s, es))
      {
        if w.Intended? {
          RestIsBlockedForReason(s, es);
        } else {
          FifoSafety(w, s, es);
          CapacityConstant(w, s, es);
        }
      }
    } else {
      var s, es := AsWrittenGetsStuck(capacity, x);
    }
  }

  // ---- Left alone, the monitor comes to rest ----

  function Busy<T>(threads: map<Tid, Thread<T>>): set<Tid> {
    set t | t in threads && !threads[t].Idle?
  }

  function Running<T>(threads: map<Tid, Thread<T>>): set<Tid> {
    set t | t in threads && HasLock(threads[t])
  }

  /** Steps that the threads can still take without a new call or a wakeup for no reason. */
  function StepsLeft<T>(s: State<T>): nat {
    2 * |Busy(s.threads)| + |Running(s.threads)|
  }

  predicate IsRun<T>(e: Event<T>) {
    e.RunPut? || e.RunTake?
  }

  /** A state that is not at rest has a thread that can run. */
  lemma SomeThreadCanRun<T>(w: Wiring, s: State<T>) returns (e: Event<T>)
    requires !AtRest(s)
    ensures IsRun(e) && Enabled(w, s, e)
  {
    var t :| t in s.threads && HasLock(s.threads[t]);
    var c := if s.threads[t].Putting? then NotEmpty else NotFull;
    var waiters := Waiters(w, s.threads[t := Idle], c);
    var woken: Option<Tid> := None;
    if waiters != {} {
      var v :| v in waiters;
      woken := Some(v);
    }
    if s.threads[t].Putting? {
      e := RunPut(t, if IsFull(s) then None else woken);
    } else {
      e := RunTake(t, if s.queue == [] then None else woken);
    }
  }

  lemma LeaveOrSleep<T>(threads: map<Tid, Thread<T>>, t: Tid, th: Thread<T>)
    requires t in threads && HasLock(threads[t]) && !HasLock(th)
    ensures Busy(threads[t := th]) == if th.Idle? then Busy(threads) - {t} else Busy(threads)
    ensures Running(threads[t := th]) == Running(threads) - {t}
    ensures t in Busy(threads) && t in Running(threads)
  {
  }

  lemma WakeRuns<T>(threads: map<Tid, Thread<T>>, t: Tid)
    requires t in threads && !threads[t].Idle? && threads[t].phase == Asleep
    ensures Busy(Wake(threads, t)) == Busy(threads)
    ensures Running(Wake(threads, t)) == Running(threads) + {t} && t !in Running(threads)
  {
  }

  lemma WaiterSleeps<T>(w: Wiring, threads: map<Tid, Thread<T>>, c: Cond, t: Tid)
    requires t in Waiters(w, threads, c)
    ensures t in threads && !threads[t].Idle? && threads[t].phase == Asleep
  {
  }

  lemma RunUsesUpAStep<T>(w: Wiring, s: State<T>, e: Event<T>)
    requires Enabled(w, s, e) && IsRun(e)
    ensures StepsLeft(Apply(w, s, e)) < StepsLeft(s)
  {
    hide Busy, Running, Waiters, Wake;
    var blocked := if e.RunPut? then IsFull(s) else s.queue == [];
    if blocked {
      LeaveOrSleep(s.threads, e.t, Apply(w, s, e).threads[e.t]);
    } else {
      var left := s.threads[e.t := Idle];
      LeaveOrSleep(s.threads, e.t, Idle);
      WithoutOne(Busy(s.threads), e.t);
      if e.woken.Some? {
        WaiterSleeps(w, left, if e.RunPut? then NotEmpty else NotFull, e.woken.value);
        WakeRuns(left, e.woken.value);
      }
    }
    WithoutOne(Running(s.threads), e.t);
  }

  /** Without new calls and wakeups for no reason every interleaving ends, after no more steps
      than twice the threads inside `put` and `take` and once those that want the lock. */
  lemma {:induction false} ComesToRest<T>(w: Wiring, s: State<T>, es: seq<Event<T>>)
    requires CanRun(w, s, es) && forall i :: 0 <= i < |es| ==> IsRun(es[i])
    ensures |es| + StepsLeft(After(w, s, es)) <= StepsLeft(s)
    decreases |es|
  {
    if es != [] {
      hide StepsLeft;
      RunUsesUpAStep(w, s, es[0]);
      ComesToRest(w, Apply(w, s, es[0]), es[1..]);
    }
  }
}
