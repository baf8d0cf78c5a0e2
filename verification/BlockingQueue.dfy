/** The bounded blocking queue: a mutex, two condition variables and a circular buffer.  Every
    stretch of code between taking the mutex and waiting or returning is one step; a run is any
    sequence of such steps by any threads, with spurious wakeups. */
module BlockingQueue {

  /** A condition variable: the threads that wait on it, and those that it has woken but that have not
      run since. */
  datatype Condition = Condition(waiting: set<nat>, woken: set<nat>) {
    ghost predicate Valid() { waiting !! woken }

    predicate Holds(t: nat) { t in waiting || t in woken }

    /** The thread runs again. */
    function Leave(t: nat): (c: Condition) { Condition(waiting, woken - {t}) }

    function Wait(t: nat): (c: Condition) { Condition(waiting + {t}, woken - {t}) }

    function Wake(t: nat): (c: Condition) { Condition(waiting - {t}, woken + {t}) }
  }

  /** Everyone who waits can be left waiting: each of the n items or places that are there is meant for
      a thread that has been woken. */
  ghost predicate Enough(c: Condition, n: int) {
    c.Valid() && (c.waiting != {} ==> n <= |c.woken|)
  }

  lemma WaitKeeps(c: Condition, t: nat)
    requires Enough(c, 0) && t !in c.waiting
    ensures Enough(c.Wait(t), 0)
  {
  }

  lemma LeaveKeeps(c: Condition, t: nat, n: int)
    requires Enough(c, n)
    ensures Enough(c.Leave(t), n - 1)
  {
    if t in c.woken {
      assert |c.woken - {t}| == |c.woken| - 1;
    } else {
      assert c.woken - {t} == c.woken;
    }
  }

  lemma WakeKeeps(c: Condition, t: nat, n: int)
    requires Enough(c, n) && t in c.waiting
    ensures Enough(c.Wake(t), n) && Enough(c.Wake(t), n + 1)
  {
    assert |c.woken + {t}| == |c.woken| + 1;
  }

  /** notify wakes one of the waiting threads, if there are any. */
  ghost predicate Notifies(c: Condition, c': Condition) {
    if c.waiting == {} then c' == c else exists t :: t in c.waiting && c' == c.Wake(t)
  }

  // ----- what a step does -----

  /** A thread that is outside calls put or take, one that has been woken runs again, or one wakes up
      by itself. */
  datatype Action<T> = Put(t: nat, x: T) | Take(t: nat) | Resume(t: nat) | Spurious(t: nat)

  /** The state of a queue, with everything put and everything taken, in order. */
  datatype View<T> = View(queue: seq<T>, notFull: Condition, notEmpty: Condition, wanted: map<nat, T>,
                          put: seq<T>, taken: seq<T>)
  {
    /** The thread is in neither put nor take. */
    predicate Outside(t: nat) { !notFull.Holds(t) && !notEmpty.Holds(t) }
  }

  /** put, from taking the mutex to waiting or returning: a thread that finds the queue full joins those
      that wait, and otherwise its item goes to the end and a consumer is notified. */
  ghost predicate Puts<T>(capacity: nat, v: View<T>, t: nat, x: T, w: View<T>) {
    if |v.queue| < capacity then
      && w == v.(queue := v.queue + [x], put := v.put + [x], notFull := v.notFull.Leave(t), notEmpty := w.notEmpty)
      && Notifies(v.notEmpty, w.notEmpty)
    else
      w == v.(notFull := v.notFull.Wait(t), wanted := v.wanted[t := x])
  }

  /** take, in the same way */
  ghost predicate Takes<T>(v: View<T>, t: nat, w: View<T>) {
    if v.queue != [] then
      && w == v.(queue := v.queue[1..], taken := v.taken + [v.queue[0]], notEmpty := v.notEmpty.Leave(t), notFull := w.notFull)
      && Notifies(v.notFull, w.notFull)
    else
      w == v.(notEmpty := v.notEmpty.Wait(t))
  }

  ghost predicate Steps<T>(capacity: nat, v: View<T>, a: Action<T>, w: View<T>) {
    match a
    case Put(t, x) => if v.Outside(t) then Puts(capacity, v, t, x, w) else w == v
    case Take(t) => if v.Outside(t) then Takes(v, t, w) else w == v
    case Resume(t) =>
      if t in v.notFull.woken && t in v.wanted then Puts(capacity, v, t, v.wanted[t], w)
      else if t in v.notEmpty.woken then Takes(v, t, w)
      else w == v
    case Spurious(t) =>
      if t in v.notFull.waiting then w == v.(notFull := v.notFull.Wake(t))
      else if t in v.notEmpty.waiting then w == v.(notEmpty := v.notEmpty.Wake(t))
      else w == v
  }

  class Queue<T> {
    const capacity: nat
    var queue: seq<T>
    var notFull: Condition
    var notEmpty: Condition
    /** What the producers on notFull want to put. */
    var wanted: map<nat, T>
    /** Everything put and everything taken, in order. */
    ghost var put: seq<T>
    ghost var taken: seq<T>

    /** No item is lost, duplicated or reordered, and no wakeup is lost. */
    ghost predicate Valid()
      reads this
    {
      && |queue| <= capacity
      && put == taken + queue
      && (forall t | notFull.Holds(t) :: t in wanted)
      && Enough(notEmpty, |queue|)
      && Enough(notFull, capacity - |queue|)
    }

    ghost function Now(): (v: View<T>)
      reads this
    {
      View(queue, notFull, notEmpty, wanted, put, taken)
    }

    constructor (maxSize: nat)
      ensures Valid() && capacity == maxSize
      ensures Now() == View([], Condition({}, {}), Condition({}, {}), map[], [], [])
    {
      capacity := maxSize;
      queue, put, taken := [], [], [];
      notFull, notEmpty, wanted := Condition({}, {}), Condition({}, {}), map[];
    }

    /** notEmpty_.notify(): any one of the waiting threads. */
    method Notify(c: Condition) returns (c': Condition)
      ensures Notifies(c, c')
    {
      if c.waiting == {} {
        return c;
      }
      var t :| t in c.waiting;
      return c.Wake(t);
    }

    /** put, from taking the mutex, at first or after a wakeup, to waiting or returning. */
    method TryPut(t: nat, x: T) returns (done: bool)
      requires Valid() && t !in notFull.waiting
      modifies this
      ensures Valid() && Puts(capacity, old(Now()), t, x, Now())
      ensures done <==> old(|queue|) < capacity
      ensures if done then !notFull.Holds(t) else t in notFull.waiting && wanted[t] == x
    {
      hide Enough;
      if |queue| == capacity {
        WaitKeeps(notFull, t);
        notFull := notFull.Wait(t);
        wanted := wanted[t := x];
        return false;
      }
      LeaveKeeps(notFull, t, capacity - |queue|);
      notFull := notFull.Leave(t);
      queue := queue + [x];
      put := put + [x];
      var was := notEmpty;
      notEmpty := Notify(notEmpty);
      assert Enough(notEmpty, |queue|) by { Notified(was, notEmpty, |queue| - 1); }
      return true;
    }

    /** take */
    method TryTake(t: nat) returns (done: bool, x: seq<T>)
      requires Valid() && t !in notEmpty.waiting
      modifies this
      ensures Valid() && Takes(old(Now()), t, Now())
      ensures done <==> old(|queue|) > 0
      ensures if done then old(queue) == x + queue && |x| == 1 && !notEmpty.Holds(t) else x == [] && t in notEmpty.waiting
    {
      hide Enough;
      if |queue| == 0 {
        WaitKeeps(notEmpty, t);
        notEmpty := notEmpty.Wait(t);
        return false, [];
      }
      LeaveKeeps(notEmpty, t, |queue|);
      notEmpty := notEmpty.Leave(t);
      x := [queue[0]];
      queue := queue[1..];
      taken := taken + x;
      var was := notFull;
      notFull := Notify(notFull);
      assert Enough(notFull, capacity - |queue|) by { Notified(was, notFull, capacity - |queue| - 1); }
      return true, x;
    }

    /** A thread wakes without having been notified. */
    method WakeUp(t: nat)
      requires Valid()
      modifies this
      ensures Valid() && Steps(capacity, old(Now()), Spurious(t), Now())
    {
      hide Enough;
      if t in notFull.waiting {
        WakeKeeps(notFull, t, capacity - |queue|);
        notFull := notFull.Wake(t);
      } else if t in notEmpty.waiting {
        WakeKeeps(notEmpty, t, |queue|);
        notEmpty := notEmpty.Wake(t);
      }
    }
  }

  lemma Notified(c: Condition, c': Condition, n: int)
    requires Enough(c, n) && Notifies(c, c')
    ensures Enough(c', n + 1)
  {
    if c.waiting != {} {
      var t :| t in c.waiting && c' == c.Wake(t);
      WakeKeeps(c, t, n);
    }
  }

  // ----- runs -----

  method Act<T>(q: Queue<T>, a: Action<T>)
    requires q.Valid()
    modifies q
    ensures q.Valid() && Steps(q.capacity, old(q.Now()), a, q.Now())
  {
    match a
    case Put(t, x) =>
      if !q.notFull.Holds(t) && !q.notEmpty.Holds(t) {
        var _ := q.TryPut(t, x);
      }
    case Take(t) =>
      if !q.notFull.Holds(t) && !q.notEmpty.Holds(t) {
        var _, _ := q.TryTake(t);
      }
    case Resume(t) =>
      if t in q.notFull.woken {
        var _ := q.TryPut(t, q.wanted[t]);
      } else if t in q.notEmpty.woken {
        var _, _ := q.TryTake(t);
      }
    case Spurious(t) =>
      q.WakeUp(t);
  }

  /** The states of a run, one after the other. */
  ghost predicate IsTrace<T>(capacity: nat, run: seq<Action<T>>, trace: seq<View<T>>) {
    && |trace| == |run| + 1
    && trace[0] == View([], Condition({}, {}), Condition({}, {}), map[], [], [])
    && forall k | 0 <= k < |run| :: Steps(capacity, trace[k], run[k], trace[k + 1])
  }

  /** In every run the queue stays within its capacity, what is taken is what was put, in that order,
      and nobody is forgotten: a consumer is left waiting only while at least as many consumers have
      been woken as there are items, and a producer only while at least as many producers have been
      woken as there are free places.  A producer's calls put their items once each, in the order of
      the calls, except for one that is still waiting; a consumer's calls take one item each, except
      for one that is still waiting. */
  method Run<T>(capacity: nat, run: seq<Action<T>>) returns (q: Queue<T>, ghost trace: seq<View<T>>)
    ensures q.capacity == capacity && q.Valid() && |q.queue| <= capacity
    ensures IsTrace(capacity, run, trace) && q.Now() == trace[|run|]
    ensures q.taken <= q.put && q.put == q.taken + q.queue
    ensures q.notEmpty.waiting != {} ==> |q.queue| <= |q.notEmpty.woken|
    ensures q.notFull.waiting != {} ==> capacity - |q.queue| <= |q.notFull.woken|
    ensures forall t :: PutCalls(t, run, trace) == PutBy(t, run, trace) + if q.notFull.Holds(t) then [q.wanted[t]] else []
    ensures forall t :: TakeCalls(t, run, trace) == |TakenBy(t, run, trace)| + if q.notEmpty.Holds(t) then 1 else 0
  {
    hide Enough, Steps;
    q := new Queue(capacity);
    trace := [q.Now()];
    for i := 0 to |run|
      invariant fresh(q) && q.Valid() && q.capacity == capacity
      invariant IsTrace(capacity, run[..i], trace) && q.Now() == trace[i]
    {
      Act(q, run[i]);
      trace := trace + [q.Now()];
    }
    assert run[..|run|] == run;
    forall t {
      CallsPut(capacity, run, trace, t);
    }
    forall t {
      CallsTake(capacity, run, trace, t);
    }
    Summary(q);
  }

  lemma Summary<T>(q: Queue<T>)
    requires q.Valid()
    ensures q.notEmpty.waiting != {} ==> |q.queue| <= |q.notEmpty.woken|
    ensures q.notFull.waiting != {} ==> q.capacity - |q.queue| <= |q.notFull.woken|
  {
  }

  // ----- the calls of one thread -----

  /** The items of the thread's calls of put, in the order of the calls. */
  ghost function PutCalls<T>(t: nat, run: seq<Action<T>>, trace: seq<View<T>>): (items: seq<T>)
    requires |trace| == |run| + 1
  {
    if run == [] then []
    else
      var n := |run| - 1;
      PutCalls(t, run[..n], trace[..n + 1]) + PutCalled(trace[n], run[n], t)
  }

  ghost function PutCalled<T>(v: View<T>, a: Action<T>, t: nat): (items: seq<T>) {
    if a.Put? && a.t == t && v.Outside(t) then [a.x] else []
  }

  /** What the steps of the thread put. */
  ghost function PutBy<T>(t: nat, run: seq<Action<T>>, trace: seq<View<T>>): (items: seq<T>)
    requires |trace| == |run| + 1
  {
    if run == [] then []
    else
      var n := |run| - 1;
      PutBy(t, run[..n], trace[..n + 1]) + if run[n].t == t then Added(trace[n].put, trace[n + 1].put) else []
  }

  ghost function TakeCalls<T>(t: nat, run: seq<Action<T>>, trace: seq<View<T>>): (calls: nat)
    requires |trace| == |run| + 1
  {
    if run == [] then 0
    else
      var n := |run| - 1;
      TakeCalls(t, run[..n], trace[..n + 1]) + if run[n] == Take(t) && trace[n].Outside(t) then 1 else 0
  }

  ghost function TakenBy<T>(t: nat, run: seq<Action<T>>, trace: seq<View<T>>): (items: seq<T>)
    requires |trace| == |run| + 1
  {
    if run == [] then []
    else
      var n := |run| - 1;
      TakenBy(t, run[..n], trace[..n + 1]) + if run[n].t == t then Added(trace[n].taken, trace[n + 1].taken) else []
  }

  ghost function Added<T>(before: seq<T>, after: seq<T>): (items: seq<T>) {
    if |before| <= |after| then after[|before|..] else []
  }

  ghost predicate Sound<T>(v: View<T>) {
    && v.notFull.Valid() && v.notEmpty.Valid()
    && (forall t | v.notFull.Holds(t) :: t in v.wanted && !v.notEmpty.Holds(t))
  }

  /** The item that the thread still wants to put. */
  ghost function Pending<T>(v: View<T>, t: nat): (items: seq<T>) {
    if v.notFull.Holds(t) && t in v.wanted then [v.wanted[t]] else []
  }

  lemma {:induction false} CallsPut<T>(capacity: nat, run: seq<Action<T>>, trace: seq<View<T>>, t: nat)
    requires IsTrace(capacity, run, trace)
    ensures Sound(trace[|run|])
    ensures PutCalls(t, run, trace) == PutBy(t, run, trace) + Pending(trace[|run|], t)
    decreases |run|
  {
    hide Steps, Pending, Added;
    if run == [] {
      assert Pending(trace[0], t) == [] by { NonePending(trace[0], t); }
    } else {
      var n := |run| - 1;
      CallsPut(capacity, run[..n], trace[..n + 1], t);
      PutStep(capacity, trace[n], run[n], trace[n + 1], t);
      Regroup(PutBy(t, run[..n], trace[..n + 1]), Pending(trace[n], t), PutCalled(trace[n], run[n], t),
              if run[n].t == t then Added(trace[n].put, trace[n + 1].put) else [], Pending(trace[n + 1], t));
    }
  }

  lemma NonePending<T>(v: View<T>, t: nat)
    requires v.notFull == Condition({}, {})
    ensures Pending(v, t) == []
  {
  }

  lemma Regroup<T>(a: seq<T>, b: seq<T>, c: seq<T>, d: seq<T>, e: seq<T>)
    requires b + c == d + e
    ensures a + b + c == a + d + e
  {
    assert a + b + c == a + (b + c);
    assert a + d + e == a + (d + e);
  }

  /** One step, with the item that the thread still wants to put before and after it. */
  lemma PutStep<T>(capacity: nat, v: View<T>, a: Action<T>, w: View<T>, t: nat)
    requires Sound(v) && Steps(capacity, v, a, w)
    ensures Sound(w)
    ensures Pending(v, t) + PutCalled(v, a, t) == (if a.t == t then Added(v.put, w.put) else []) + Pending(w, t)
  {
  }

  lemma {:induction false} CallsTake<T>(capacity: nat, run: seq<Action<T>>, trace: seq<View<T>>, t: nat)
    requires IsTrace(capacity, run, trace)
    ensures TakeCalls(t, run, trace) == |TakenBy(t, run, trace)| + if trace[|run|].notEmpty.Holds(t) then 1 else 0
    decreases |run|
  {
    if run != [] {
      var n := |run| - 1;
      CallsTake(capacity, run[..n], trace[..n + 1], t);
      CallsPut(capacity, run[..n], trace[..n + 1], t);
      TakeStep(capacity, trace[n], run[n], trace[n + 1], t);
    }
  }

  lemma TakeStep<T>(capacity: nat, v: View<T>, a: Action<T>, w: View<T>, t: nat)
    requires Sound(v) && Steps(capacity, v, a, w)
    ensures (if v.notEmpty.Holds(t) then 1 else 0) + (if a == Take(t) && v.Outside(t) then 1 else 0)
            == (if a.t == t then |Added(v.taken, w.taken)| else 0) + if w.notEmpty.Holds(t) then 1 else 0
  {
  }

  /** With a positive capacity the threads never all wait for each other. */
  lemma NoDeadlock<T>(q: Queue<T>)
    requires q.Valid() && q.capacity > 0 && q.notEmpty.woken == {} && q.notFull.woken == {}
    ensures q.notEmpty.waiting == {} || q.notFull.waiting == {}
    ensures q.notEmpty.waiting != {} ==> q.queue == []
    ensures q.notFull.waiting != {} ==> |q.queue| == q.capacity
  {
  }
}
