/** In which order the scheduler calls fibres, stated on the queues that it finds, without its functions. */
module SchedulerOrder {
  import opened List
  import opened Scheduler
  import opened SchedulerTime
  import opened Sequences
  import opened Words
  import opened Wrappers

  /** A sequence without the elements of another one. */
  ghost function Except<A>(q: seq<A>, taken: seq<A>): seq<A> {
    if q == [] then [] else if q[0] in taken then Except(q[1..], taken) else [q[0]] + Except(q[1..], taken)
  }

  lemma {:induction false} ExceptMembers<A>(q: seq<A>, taken: seq<A>)
    ensures forall x :: x in Except(q, taken) ==> x in q && x !in taken
    ensures forall x :: x in q && x !in taken ==> x in Except(q, taken)
    ensures Distinct(q) ==> Distinct(Except(q, taken))
  {
    if q != [] {
      ExceptMembers(q[1..], taken);
      assert q == [q[0]] + q[1..];
    }
  }

  lemma {:induction false} ExceptNone<A>(q: seq<A>, taken: seq<A>)
    requires forall x :: x in q ==> x !in taken
    ensures Except(q, taken) == q
  {
    if q != [] {
      ExceptNone(q[1..], taken);
    }
  }

  lemma {:induction false} ExceptSame<A>(q: seq<A>, taken: seq<A>, x: A)
    requires x !in q
    ensures Except(q, taken + [x]) == Except(q, taken)
  {
    if q != [] {
      ExceptSame(q[1..], taken, x);
    }
  }

  lemma {:induction false} ExceptOneMore<A>(q: seq<A>, taken: seq<A>, x: A)
    requires Distinct(q)
    ensures Except(q, taken + [x]) == Without(Except(q, taken), x)
  {
    if q != [] {
      var r := Except(q[1..], taken);
      if q[0] == x {
        assert x !in q[1..];
        ExceptSame(q[1..], taken, x);
        ExceptMembers(q[1..], taken);
        WithoutNone(r, x);
      } else {
        ExceptOneMore(q[1..], taken, x);
      }
      assert ([q[0]] + r)[1..] == r;
    }
  }

  lemma {:induction false} ExceptBoth<A>(q: seq<A>, a: seq<A>, b: seq<A>)
    ensures Except(q, a + b) == Except(Except(q, a), b)
  {
    if q != [] {
      ExceptBoth(q[1..], a, b);
      var r := Except(q[1..], a);
      assert ([q[0]] + r)[1..] == r;
    }
  }

  lemma {:induction false} ExceptPrefix<A>(q: seq<A>, k: nat)
    requires Distinct(q) && k <= |q|
    ensures Except(q, q[..k]) == q[k..]
  {
    if k == 0 {
      ExceptNone(q, []);
    } else {
      var rest := q[1..];
      ExceptPrefix(rest, k - 1);
      assert q[..k] == [q[0]] + rest[..k - 1];
      ExceptBoth(rest, [q[0]], rest[..k - 1]);
      ExceptNone(rest, [q[0]]);
    }
  }

  // ---------- what is asked for ----------

  /** The run queue once all requests are served. */
  ghost function Asked<F>(s: Sched<F>): seq<F> {
    s.runq + Requested(s.pending, s.runq)
  }

  /** The timer queue consists of those who are not runnable, in the order of a queue q. */
  ghost predicate Sleeping<F>(s: Sched<F>, q: seq<F>) {
    Inv(s) && Distinct(q) && s.timerq == Except(q, s.runq)
  }

  lemma EnqueueOrder<F>(s: Sched<F>, f: F, q: seq<F>)
    requires Sleeping(s, q)
    ensures Sleeping(Enqueue(s, f), q)
    ensures Enqueue(s, f).runq == s.runq + if f in s.runq then [] else [f]
  {
    EnqueueKeepsInv(s, f);
    ExceptOneMore(q, s.runq, f);
  }

  lemma {:induction false} DrainOrder<F>(s: Sched<F>)
    requires Inv(s)
    ensures Sleeping(Drain(s), s.timerq) && Drain(s).runq == Asked(s)
    decreases |s.pending|
  {
    DrainAppends(s);
    if s.pending == [] {
      ExceptNone(s.timerq, s.runq);
    } else {
      var s1 := s.(pending := s.pending[1..]);
      DrainOrder(s1);
      EnqueueOrder(Drain(s1), s.pending[0], s.timerq);
    }
  }

  /** fibre_run serves the requests that came before it first, so that its fibre comes last. */
  lemma FibreRunOrder<F>(s: Sched<F>, f: F)
    requires Inv(s)
    ensures var r := FibreRun(s, f);
      && r.runq == Asked(s) + (if f in Asked(s) then [] else [f])
      && r.timerq == Except(s.timerq, r.runq)
  {
    DrainOrder(s);
    EnqueueOrder(Drain(s), f, s.timerq);
  }

  lemma {:induction false} WithoutIsExcept<A>(q: seq<A>, x: A)
    requires Distinct(q)
    ensures Without(q, x) == Except(q, [x])
  {
    if q != [] {
      if q[0] == x {
        assert x !in q[1..];
        ExceptNone(q[1..], [x]);
      } else {
        WithoutIsExcept(q[1..], x);
      }
    }
  }

  /** fibre_kill serves the requests first, too; then it removes its fibre and keeps the order of all others. */
  lemma FibreKillOrder<F>(s: Sched<F>, f: F)
    requires Inv(s)
    ensures FibreKill(s, f).runq == Except(Asked(s), [f])
    ensures FibreKill(s, f).timerq == Except(s.timerq, Asked(s) + [f])
  {
    DrainOrder(s);
    WithoutIsExcept(Asked(s), f);
    ExceptOneMore(s.timerq, Asked(s), f);
  }

  // ---------- what is called ----------

  /** Those asked for, and then the current fibre if it yielded without being asked for. */
  ghost function Ready<F>(s: Sched<F>): seq<F> {
    if s.current.Some? && s.state == Yielded && s.current.value !in Asked(s)
    then Asked(s) + [s.current.value] else Asked(s)
  }

  /** How many fibres at the head of a queue have due times that have elapsed at time t. */
  ghost function Elapsing<F>(s: Sched<F>, q: seq<F>, t: int): (k: nat)
    ensures k <= |q|
  {
    if q != [] && CycleCmp32(Desc(s, q[0]).duetime, t % WORD) <= 0 then 1 + Elapsing(s, q[1..], t) else 0
  }

  /** The order in which fibres are called from time t on: those that are ready, and behind them the
      sleepers at the head of the rest of the timer queue whose times have elapsed. */
  ghost function Upcoming<F>(s: Sched<F>, t: int): seq<F> {
    var sleepers := Except(s.timerq, Ready(s));
    Ready(s) + sleepers[..Elapsing(s, sleepers, t)]
  }

  /** d has called the first of q, if any, and the rest are on its run queue. */
  ghost predicate Calls<F>(d: Sched<F>, q: seq<F>) {
    if q == [] then d.current == None && d.runq == [] else d.current == Some(q[0]) && d.runq == q[1..]
  }

  lemma UpdateOrder<F>(s: Sched<F>, q: seq<F>)
    requires Sleeping(s, q) && s.pending == []
    ensures var u := UpdateIfAny(s); Sleeping(u, q) && u.runq == Ready(s) && u.pending == []
  {
    assert Asked(s) == s.runq;
    if s.current.Some? && s.state == Yielded {
      EnqueueOrder(s.(states := s.states[s.current.value := s.state]), s.current.value, q);
    }
  }

  /** Due times and the clock are all that matters to handle_timerq. */
  lemma {:induction false} ElapsingIs<F>(s: Sched<F>, u: Sched<F>, t: int)
    requires u.dues == s.dues && u.now == t % WORD
    ensures ExpiredIx(u) == Elapsing(s, u.timerq, t)
    decreases |u.timerq|
  {
    if u.timerq != [] {
      ElapsingIs(s, u.(timerq := u.timerq[1..], runq := u.runq + [u.timerq[0]]), t);
    }
  }

  lemma ReadyOnceServed<F>(s: Sched<F>, d: Sched<F>)
    requires d.runq == Asked(s) && d.pending == [] && d.current == s.current && d.state == s.state
    ensures Ready(d) == Ready(s)
  {
    assert Asked(d) == d.runq;
  }

  lemma UpdatedOrder<F>(s: Sched<F>)
    requires Inv(s)
    ensures var u := UpdateIfAny(Drain(s));
      && u.runq == Ready(s) && u.timerq == Except(s.timerq, Ready(s)) && u.pending == []
      && u.dues == s.dues && u.now == s.now
  {
    var d := Drain(s);
    DrainOrder(s);
    DrainAppends(s);
    UpdateOrder(d, s.timerq);
    ReadyOnceServed(s, d);
    UpdateKeepsDues(d);
  }

  /** d has called and made runnable those in a queue and the first k sleepers. */
  ghost predicate Wakes<F>(d: Sched<F>, ready: seq<F>, sleepers: seq<F>, k: nat)
    requires k <= |sleepers|
  {
    Calls(d, ready + sleepers[..k]) && d.timerq == sleepers[k..] && d.pending == []
  }

  lemma ExpiryOrder<F>(u: Sched<F>)
    requires u.pending == []
    ensures Wakes(GetNextTask(HandleTimerq(u)), u.runq, u.timerq, ExpiredIx(u))
  {
    HandleTimerqIs(u);
  }

  lemma RescheduleOrder<F>(s: Sched<F>, t: int)
    requires Inv(s) && s.now == t % WORD
    ensures var sleepers := Except(s.timerq, Ready(s));
      Wakes(Reschedule(s), Ready(s), sleepers, Elapsing(s, sleepers, t))
  {
    UpdatedOrder(s);
    ElapsingIs(s, UpdateIfAny(Drain(s)), t);
    ExpiryOrder(UpdateIfAny(Drain(s)));
  }

  lemma {:induction false} ElapsingAlike<F>(s: Sched<F>, s1: Sched<F>, q: seq<F>, t: int)
    requires s1.dues == s.dues
    ensures Elapsing(s1, q, t) == Elapsing(s, q, t)
  {
    if q != [] {
      ElapsingAlike(s, s1, q[1..], t);
    }
  }

  lemma DispatchedInOrder<F>(s: Sched<F>, t: int)
    requires Inv(s)
    ensures var sleepers := Except(s.timerq, Ready(s));
      Wakes(Dispatch(s, t), Ready(s), sleepers, Elapsing(s, sleepers, t))
  {
    var s1 := SetClock(s, t);
    var sleepers := Except(s.timerq, Ready(s));
    assert Ready(s1) == Ready(s);
    if SingleFibre(s1) {
      assert Asked(s) == [];
    } else {
      RescheduleOrder(s1, t);
      ElapsingAlike(s, s1, sleepers, t);
    }
  }

  lemma RestOfSleepers<A>(q: seq<A>, ready: seq<A>, k: nat)
    requires Distinct(q) && k <= |Except(q, ready)|
    ensures Except(q, ready + Except(q, ready)[..k]) == Except(q, ready)[k..]
  {
    ExceptMembers(q, ready);
    ExceptBoth(q, ready, Except(q, ready)[..k]);
    ExceptPrefix(Except(q, ready), k);
  }

  /** What a scheduler call does to the queues, whether it takes the shortcut for a single fibre or not:
      first those who were runnable, then those requested, then the fibre that yielded, then those who
      were asleep and due; whoever is not called or made runnable stays asleep. */
  lemma DispatchOrder<F>(s: Sched<F>, t: int)
    requires Inv(s)
    ensures var d := Dispatch(s, t);
      Calls(d, Upcoming(s, t)) && d.timerq == Except(s.timerq, Upcoming(s, t)) && d.pending == []
  {
    DispatchedInOrder(s, t);
    RestOfSleepers(s.timerq, Ready(s), Elapsing(s, Except(s.timerq, Ready(s)), t));
  }

  // ---------- in true time ----------

  /** Those who are due by time t. */
  ghost function DueBy<F>(s: Sched<F>, q: seq<F>, t: int): seq<F> {
    if q == [] then [] else (if DueTime(s, q[0]) <= t then [q[0]] else []) + DueBy(s, q[1..], t)
  }

  ghost predicate ByDueTime<F>(s: Sched<F>, q: seq<F>) {
    q != [] ==> (forall f :: f in q[1..] ==> DueTime(s, q[0]) <= DueTime(s, f)) && ByDueTime(s, q[1..])
  }

  lemma {:induction false} TimerqByDueTime<F>(s: Sched<F>, i: nat)
    requires FirstDueFirst(Sleeps(s)) && i <= |s.timerq|
    ensures ByDueTime(s, s.timerq[i..])
    decreases |s.timerq| - i
  {
    if i < |s.timerq| {
      var q := s.timerq[i..];
      forall f | f in q[1..] ensures DueTime(s, q[0]) <= DueTime(s, f) {
        var j :| 0 <= j < |q[1..]| && q[1..][j] == f;
        assert Sleeps(s)[i].due <= Sleeps(s)[i + 1 + j].due;
      }
      assert q[1..] == s.timerq[i + 1..];
      TimerqByDueTime(s, i + 1);
    }
  }

  lemma {:induction false} ExceptByDueTime<F>(s: Sched<F>, q: seq<F>, taken: seq<F>)
    requires ByDueTime(s, q)
    ensures ByDueTime(s, Except(q, taken))
  {
    if q != [] {
      var r := Except(q[1..], taken);
      ExceptByDueTime(s, q[1..], taken);
      ExceptMembers(q[1..], taken);
      assert ([q[0]] + r)[1..] == r;
    }
  }

  lemma {:induction false} NoneDue<F>(s: Sched<F>, q: seq<F>, t: int)
    requires forall f :: f in q ==> DueTime(s, f) > t
    ensures DueBy(s, q, t) == []
  {
    if q != [] {
      NoneDue(s, q[1..], t);
    }
  }

  lemma {:induction false} ElapsingAreDue<F>(s: Sched<F>, q: seq<F>, t: int)
    requires ByDueTime(s, q)
    requires forall f :: f in q ==> (CycleCmp32(Desc(s, f).duetime, t % WORD) <= 0 <==> DueTime(s, f) <= t)
    ensures q[..Elapsing(s, q, t)] == DueBy(s, q, t)
  {
    if q != [] {
      if DueTime(s, q[0]) <= t {
        ElapsingAreDue(s, q[1..], t);
        assert q[..Elapsing(s, q, t)] == [q[0]] + q[1..][..Elapsing(s, q[1..], t)];
      } else {
        NoneDue(s, q[1..], t);
      }
    }
  }

  lemma ElapsedAreDue<F>(s: Sched<F>, t: int)
    requires Timely(s) && Paced(s, t)
    ensures var q := Except(s.timerq, Ready(s)); q[..Elapsing(s, q, t)] == DueBy(s, q, t)
  {
    var q := Except(s.timerq, Ready(s));
    ExceptMembers(s.timerq, Ready(s));
    forall f | f in q ensures CycleCmp32(Desc(s, f).duetime, t % WORD) <= 0 <==> DueTime(s, f) <= t {
      LaterClock(s.clock, t, Desc(s, f).duetime);
    }
    TimerqByDueTime(s, 0);
    assert s.timerq[0..] == s.timerq;
    ExceptByDueTime(s, s.timerq, Ready(s));
    ElapsingAreDue(s, q, t);
  }

  /** The order of the calls from time t on: the run queue, the requested fibres, the fibre that yielded
      unless it is among these, and those left on the timer queue that are due, in its order. */
  lemma CallOrder<F>(s: Sched<F>, t: int)
    requires Inv(s) && Timely(s) && Paced(s, t)
    ensures var d := Dispatch(s, t);
      var asked := s.runq + Requested(s.pending, s.runq);
      var ready := asked +
        if s.current.Some? && s.state == Yielded && s.current.value !in asked then [s.current.value] else [];
      var due := DueBy(s, Except(s.timerq, ready), t);
      Calls(d, ready + due) && d.timerq == Except(s.timerq, ready + due) && d.pending == []
  {
    DispatchOrder(s, t);
    ElapsedAreDue(s, t);
    assert Asked(s) + [] == Asked(s);
  }
}
