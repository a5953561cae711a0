/**
 * The blocking queue (ext/ThreadSafeQueue.hpp). Every method holds m_mutex from start to end, except that waitPop gives
 * it up while it waits on m_condition; so each method is one step, and waitPop is one step per look at its predicate.
 */
module ThreadSafeQueue {
  import opened Options

  type Thread = nat

  // The queue between two steps. A thread waiting on m_condition is asleep until it is notified or wakes up by itself;
  // from then on it is woken, and will look at the predicate once it gets the mutex.
  datatype State<T> = State(items: seq<T>, valid: bool, asleep: set<Thread>, woken: set<Thread>)

  datatype Outcome<T> = Waits | Fails | Gets(value: T)

  ghost predicate WellFormed<T>(q: State<T>) {
    q.asleep !! q.woken
  }

  // tryPop
  function TryPopStep<T>(q: State<T>): (State<T>, Option<T>) {
    if q.items == [] || !q.valid then (q, None) else (q.(items := q.items[1..]), Some(q.items[0]))
  }

  // waitPop of thread t, from getting the mutex to giving it up
  function WaitPopStep<T>(q: State<T>, t: Thread): (State<T>, Outcome<T>) {
    var awake := q.(asleep := q.asleep - {t}, woken := q.woken - {t});
    if q.items == [] && q.valid then (awake.(asleep := awake.asleep + {t}), Waits)
    else if !q.valid then (awake, Fails)
    else (awake.(items := q.items[1..]), Gets(q.items[0]))
  }

  // m_condition.notify_one() can wake w: some thread that is asleep, or none if there is none
  predicate CanNotify<T>(q: State<T>, w: Option<Thread>) {
    match w
    case Some(t) => t in q.asleep
    case None => q.asleep == {}
  }

  function Woken<T>(q: State<T>, t: Thread): State<T> {
    q.(asleep := q.asleep - {t}, woken := q.woken + {t})
  }

  // push, when notify_one wakes w
  function PushStep<T>(q: State<T>, value: T, w: Option<Thread>): State<T>
    requires CanNotify(q, w)
  {
    var pushed := q.(items := q.items + [value]);
    match w
    case Some(t) => Woken(pushed, t)
    case None => pushed
  }

  function AllWoken<T>(q: State<T>): State<T> {
    q.(asleep := {}, woken := q.woken + q.asleep)
  }

  // clear
  function ClearStep<T>(q: State<T>): State<T> {
    AllWoken(q.(items := []))
  }

  // invalidate
  function InvalidateStep<T>(q: State<T>): State<T> {
    AllWoken(q.(valid := false))
  }

  // The threads inside m_condition.wait.
  function Blocked<T>(q: State<T>): set<Thread> {
    q.asleep + q.woken
  }

  lemma WaitPopBlocked<T>(q: State<T>, t: Thread)
    ensures var (after, outcome) := WaitPopStep(q, t);
            Blocked(after) == Blocked(q) - {t} + if outcome == Waits then {t} else {}
  {
  }

  lemma NotifyBlocked<T>(q: State<T>, t: Thread)
    requires t in q.asleep
    ensures Blocked(Woken(q, t)) == Blocked(q)
  {
  }

  lemma AllBlocked<T>(q: State<T>)
    ensures Blocked(AllWoken(q)) == Blocked(q)
  {
  }

  // tryPop and a waitPop that gets something both take the oldest item of a valid queue; every other item stays in place.
  lemma OldestFirst<T>(q: State<T>, t: Thread, first: T, rest: seq<T>)
    requires q.items == [first] + rest
    ensures TryPopStep(q) == if q.valid then (q.(items := rest), Some(first)) else (q, None)
    ensures WaitPopStep(q, t).1 == if q.valid then Gets(first) else Fails
    ensures WaitPopStep(q, t).0.items == if q.valid then rest else q.items
  {
  }

  // clear and invalidate leave nobody asleep; clear leaves no item and invalidate no valid queue.
  lemma AllNotified<T>(q: State<T>)
    ensures ClearStep(q).items == [] && ClearStep(q).valid == q.valid
    ensures InvalidateStep(q).items == q.items && !InvalidateStep(q).valid
    ensures ClearStep(q).asleep == InvalidateStep(q).asleep == {}
    ensures forall t :: t in q.asleep || t in q.woken <==> t in ClearStep(q).woken
    ensures forall t :: t in q.asleep || t in q.woken <==> t in InvalidateStep(q).woken
  {
  }

  // ---------- no lost wakeup ----------

  // While some thread sleeps there are at most as many items as threads already on their way to fetch one.
  ghost predicate NoLostWakeup<T>(q: State<T>) {
    && WellFormed(q)
    && (q.asleep != {} ==> |q.items| <= |q.woken| && q.valid)
  }

  lemma PushKeeps<T>(q: State<T>, value: T, w: Option<Thread>)
    requires NoLostWakeup(q) && CanNotify(q, w)
    ensures NoLostWakeup(PushStep(q, value, w))
  {
  }

  lemma WaitPopKeeps<T>(q: State<T>, t: Thread)
    requires NoLostWakeup(q) && t !in q.asleep
    ensures NoLostWakeup(WaitPopStep(q, t).0)
  {
  }

  lemma OthersKeep<T>(q: State<T>, t: Thread)
    requires NoLostWakeup(q)
    ensures NoLostWakeup(TryPopStep(q).0) && NoLostWakeup(ClearStep(q)) && NoLostWakeup(InvalidateStep(q))
    ensures t in q.asleep ==> NoLostWakeup(Woken(q, t))
  {
  }

  // clear does not end a waitPop, although its comment says so: the woken thread looks, finds the queue valid and empty,
  // and sleeps again. Only an item or invalidate lets it return.
  lemma WaitPopReturns<T>(q: State<T>, t: Thread)
    ensures WaitPopStep(q, t).1 == Waits <==> q.items == [] && q.valid
    ensures t in q.asleep && q.valid ==> WaitPopStep(ClearStep(q), t).1 == Waits
    ensures WaitPopStep(InvalidateStep(q), t).1 == Fails
  {
  }

  // ---------- the class ----------

  class ThreadSafeQueue<T> {
    var queue: seq<T>
    var valid: bool
    // the threads in m_condition.wait
    var asleep: set<Thread>
    var woken: set<Thread>

    constructor ()
      ensures View() == State([], true, {}, {})
    {
      queue, valid, asleep, woken := [], true, {}, {};
    }

    function View(): State<T>
      reads this
    {
      State(queue, valid, asleep, woken)
    }

    method TryPop() returns (out: Option<T>)
      modifies this
      ensures (View(), out) == TryPopStep(old(View()))
    {
      if |queue| == 0 || !valid {
        return None;
      }
      out := Some(queue[0]);
      queue := queue[1..];
    }

    // One look of thread t at the predicate of m_condition.wait, and the rest of waitPop when it holds.
    method WaitPop(t: Thread) returns (out: Outcome<T>)
      modifies this
      ensures (View(), out) == WaitPopStep(old(View()), t)
    {
      asleep, woken := asleep - {t}, woken - {t};
      if !(|queue| != 0 || !valid) {
        asleep := asleep + {t};
        return Waits;
      }
      if !valid {
        return Fails;
      }
      out := Gets(queue[0]);
      queue := queue[1..];
    }

    method Push(value: T) returns (ghost w: Option<Thread>)
      modifies this
      ensures CanNotify(old(View()), w) && View() == PushStep(old(View()), value, w)
    {
      queue := queue + [value];
      w := NotifyOne();
    }

    // m_condition.notify_one()
    method NotifyOne() returns (ghost w: Option<Thread>)
      modifies this`asleep, this`woken
      ensures CanNotify(old(View()), w)
      ensures View() == if w.Some? then Woken(old(View()), w.value) else old(View())
    {
      w := None;
      if asleep != {} {
        var t :| t in asleep;
        asleep, woken := asleep - {t}, woken + {t};
        w := Some(t);
      }
    }

    // m_condition.notify_all()
    method NotifyAll()
      modifies this`asleep, this`woken
      ensures View() == AllWoken(old(View()))
    {
      asleep, woken := {}, woken + asleep;
    }

    method Clear()
      modifies this
      ensures View() == ClearStep(old(View()))
    {
      while |queue| != 0
        invariant valid == old(valid) && asleep == old(asleep) && woken == old(woken)
        decreases |queue|
      {
        queue := queue[1..];
      }
      NotifyAll();
    }

    method Invalidate()
      modifies this
      ensures View() == InvalidateStep(old(View()))
    {
      valid := false;
      NotifyAll();
    }
  }
}
