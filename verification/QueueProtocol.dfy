/** The monitor of `base/bounded_blocking_queue.h` as a step system: any number of threads, each
    critical section one atomic step. A thread that is woken must take the lock again like any
    other, so it may be overtaken, and it may be woken for no reason. */
module QueueProtocol {

  type Tid = nat

  datatype Option<+T> = None | Some(value: T)

  datatype Cond = NotEmpty | NotFull

  /** Which condition `put` waits on: the header writes `m_not_empty`, where the post in `take`
      and the name show that `m_not_full` is meant. */
  datatype Wiring = AsWritten | Intended

  /** Inside `put` or `take` a thread wants the lock for the first time, sleeps in `wait`, or has
      been woken and wants the lock again. */
  datatype Phase = Ready | Asleep | Woken

  datatype Thread<+T> = Idle | Putting(x: T, phase: Phase) | Taking(phase: Phase)

  /** `puts` and `taken` record the values pushed and popped, in lock order. */
  datatype State<+T> = State(capacity: nat, queue: seq<T>, threads: map<Tid, Thread<T>>,
                             puts: seq<T>, taken: seq<T>)

  /** What a thread does next; `woken` is the waiter that the post picks. */
  datatype Event<+T> =
    | CallPut(t: Tid, x: T)
    | CallTake(t: Tid)
    | RunPut(t: Tid, woken: Option<Tid>)
    | RunTake(t: Tid, woken: Option<Tid>)
    | SpuriousWake(t: Tid)

  // ---- The circular buffer ----

  predicate IsFull<T>(s: State<T>) {
    |s.queue| == s.capacity
  }

  /** `circular_buffer::push_back` overwrites the oldest element of a full buffer. */
  function PushBack<T>(queue: seq<T>, capacity: nat, x: T): seq<T> {
    if |queue| < capacity then queue + [x]
    else if queue == [] then []
    else queue[1..] + [x]
  }

  // ---- The condition variables ----

  predicate WaitsOn<T>(w: Wiring, th: Thread<T>, c: Cond) {
    || (th.Putting? && th.phase == Asleep && c == if w.Intended? then NotFull else NotEmpty)
    || (th.Taking? && th.phase == Asleep && c == NotEmpty)
  }

  function Waiters<T>(w: Wiring, threads: map<Tid, Thread<T>>, c: Cond): set<Tid> {
    set t | t in threads && WaitsOn(w, threads[t], c)
  }

  /** `pthread_cond_signal`: wakes one waiter if there is any. */
  predicate CanPost<T>(w: Wiring, threads: map<Tid, Thread<T>>, c: Cond, woken: Option<Tid>) {
    if woken.Some? then woken.value in Waiters(w, threads, c) else Waiters(w, threads, c) == {}
  }

  function Wake<T>(threads: map<Tid, Thread<T>>, t: Tid): map<Tid, Thread<T>>
    requires t in threads && !threads[t].Idle?
  {
    threads[t := threads[t].(phase := Woken)]
  }

  function Post<T>(w: Wiring, threads: map<Tid, Thread<T>>, c: Cond, woken: Option<Tid>): map<Tid, Thread<T>>
    requires CanPost(w, threads, c, woken)
  {
    if woken.Some? then Wake(threads, woken.value) else threads
  }

  // ---- Steps ----

  predicate HasLock<T>(th: Thread<T>) {
    !th.Idle? && th.phase != Asleep
  }

  predicate Enabled<T>(w: Wiring, s: State<T>, e: Event<T>) {
    && e.t in s.threads
    && var th := s.threads[e.t];
       match e
       case CallPut(_, _) => th.Idle?
       case CallTake(_) => th.Idle?
       case RunPut(t, woken) =>
         th.Putting? && HasLock(th) &&
         (if IsFull(s) then woken.None? else CanPost(w, s.threads[t := Idle], NotEmpty, woken))
       case RunTake(t, woken) =>
         th.Taking? && HasLock(th) &&
         (if s.queue == [] then woken.None? else CanPost(w, s.threads[t := Idle], NotFull, woken))
       case SpuriousWake(_) => !th.Idle? && th.phase == Asleep
  }

  function Apply<T>(w: Wiring, s: State<T>, e: Event<T>): State<T>
    requires Enabled(w, s, e)
  {
    match e
    case CallPut(t, x) => s.(threads := s.threads[t := Putting(x, Ready)])
    case CallTake(t) => s.(threads := s.threads[t := Taking(Ready)])
    case RunPut(t, woken) =>
      var x := s.threads[t].x;
      if IsFull(s) then s.(threads := s.threads[t := Putting(x, Asleep)])
      else s.(queue := PushBack(s.queue, s.capacity, x),
              puts := s.puts + [x],
              threads := Post(w, s.threads[t := Idle], NotEmpty, woken))
    case RunTake(t, woken) =>
      if s.queue == [] then s.(threads := s.threads[t := Taking(Asleep)])
      else s.(queue := s.queue[1..],
              taken := s.taken + [s.queue[0]],
              threads := Post(w, s.threads[t := Idle], NotFull, woken))
    case SpuriousWake(t) => s.(threads := Wake(s.threads, t))
  }

  predicate Init<T>(s: State<T>) {
    s.queue == [] && s.puts == [] && s.taken == [] && forall t :: t in s.threads ==> s.threads[t].Idle?
  }

  /** First in, first out, within the capacity. */
  ghost predicate Fifo<T>(s: State<T>) {
    s.taken + s.queue == s.puts && |s.queue| <= s.capacity
  }

  /** Every event of `es` is enabled when its turn comes: one interleaving of the threads. */
  predicate CanRun<T>(w: Wiring, s: State<T>, es: seq<Event<T>>)
    decreases |es|
  {
    es == [] || (Enabled(w, s, es[0]) && CanRun(w, Apply(w, s, es[0]), es[1..]))
  }

  function After<T>(w: Wiring, s: State<T>, es: seq<Event<T>>): State<T>
    requires CanRun(w, s, es)
    decreases |es|
  {
    if es == [] then s else After(w, Apply(w, s, es[0]), es[1..])
  }
}
